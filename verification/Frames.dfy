/** include/Msg.h: the frame layout and the arithmetic on its header. */
module Frames {
  import opened Bytes

  const HEADER_LENGTH := 8
  const MAX_DATA := 1024
  const IMAGE_LENGTH := 1032
  const VERSION: int8 := 1

  /** `ResponseCode_t::ERROR`; it does not fit in the `int8_t` it is compared with. */
  const ERROR_CODE := 0x2000

  /** `MsgId_t`, the two identifiers the chat server dispatches on. */
  const RQ_CREATE_USER: uint32 := 1
  const NF_MESSAGE: uint32 := 3

  datatype Header = Header(version: int8, result: int8, bodyLength: int16, msgId: uint32)

  /** The object representation of a `Msg`: header and body, 1032 bytes, stale bytes included. */
  type Image = s: seq<byte> | |s| == IMAGE_LENGTH witness seq(IMAGE_LENGTH, i => 0)

  /** The header's object representation on a little-endian host, which is what is sent. */
  function EncodeHeader(h: Header): (s: seq<byte>)
    ensures |s| == HEADER_LENGTH
  {
    ToBytes(h.version % 0x100, 1) + ToBytes(h.result % 0x100, 1)
    + ToBytes(h.bodyLength % 0x1_0000, 2) + ToBytes(h.msgId, 4)
  }

  function DecodeHeader(s: seq<byte>): Header
    requires |s| >= HEADER_LENGTH
  {
    assert Range(1) == 0x100 && Range(2) == 0x1_0000 && Range(3) == 0x100_0000;
    Header(Wrap8(FromBytes(s[0..1])), Wrap8(FromBytes(s[1..2])), Wrap16(FromBytes(s[2..4])), FromBytes(s[4..8]))
  }

  lemma OneByte(s: seq<byte>)
    requires |s| == 1
    ensures FromBytes(s) == s[0]
  {
  }

  lemma TwoBytes(s: seq<byte>)
    requires |s| == 2
    ensures FromBytes(s) == s[0] as int + 0x100 * s[1] as int
  {
    OneByte(s[1..]);
  }

  lemma FourBytes(s: seq<byte>)
    requires |s| == 4
    ensures FromBytes(s) == s[0] as int + 0x100 * s[1] as int + 0x1_0000 * s[2] as int + 0x100_0000 * s[3] as int
  {
    var t := s[1..];
    TwoBytes(t[1..]);
    assert FromBytes(t) == t[0] + 0x100 * FromBytes(t[1..]);
    assert FromBytes(s) == s[0] + 0x100 * FromBytes(t);
  }

  lemma HeaderRoundTrip(h: Header)
    ensures DecodeHeader(EncodeHeader(h)) == h
  {
    assert Range(1) == 0x100 && Range(2) == 0x1_0000 && Range(3) == 0x100_0000;
    WrapsSigned(h.version, h.bodyLength);
    WrapsSigned(h.result, 0);
    hide Wrap8, Wrap16;
    FromToBytes(h.version % 0x100, 1);
    FromToBytes(h.result % 0x100, 1);
    FromToBytes(h.bodyLength % 0x1_0000, 2);
    FromToBytes(h.msgId, 4);
    var e := EncodeHeader(h);
    assert e[0..1] == ToBytes(h.version % 0x100, 1);
    assert e[1..2] == ToBytes(h.result % 0x100, 1);
    assert e[2..4] == ToBytes(h.bodyLength % 0x1_0000, 2);
    assert e[4..8] == ToBytes(h.msgId, 4);
  }

  lemma BytesRoundTrip(s: seq<byte>)
    requires |s| == HEADER_LENGTH
    ensures EncodeHeader(DecodeHeader(s)) == s
  {
    assert Range(1) == 0x100 && Range(2) == 0x1_0000;
    WrapsUnsigned(FromBytes(s[0..1]), FromBytes(s[2..4]));
    WrapsUnsigned(FromBytes(s[1..2]), 0);
    hide Wrap8, Wrap16;
    ToFromBytes(s[0..1]);
    ToFromBytes(s[1..2]);
    ToFromBytes(s[2..4]);
    ToFromBytes(s[4..8]);
    assert s == s[0..1] + s[1..2] + s[2..4] + s[4..8];
  }

  /** The header of a byte string is a matter of its first 8 bytes. */
  lemma HeaderOfPrefix(s: seq<byte>, rest: seq<byte>)
    requires |s| >= HEADER_LENGTH
    ensures DecodeHeader(s + rest) == DecodeHeader(s)
  {
    var t := s + rest;
    assert t[0..1] == s[0..1] && t[1..2] == s[1..2] && t[2..4] == s[2..4] && t[4..8] == s[4..8];
  }

  lemma HeadOfEncoded(h: Header, rest: seq<byte>)
    requires |rest| == MAX_DATA
    ensures Head(EncodeHeader(h) + rest) == h
  {
    HeaderRoundTrip(h);
    HeaderOfPrefix(EncodeHeader(h), rest);
  }

  /** `Msg::checkHeader`. */
  predicate Accepts(h: Header) {
    h.version == VERSION && h.bodyLength <= MAX_DATA && h.result <= ERROR_CODE
  }

  /** Where the fields are on the wire: version, result, length and message id, in this order, each
      little-endian, the first three signed. */
  lemma HeaderLayout(s: seq<byte>)
    requires |s| >= 8
    ensures var h := DecodeHeader(s);
            var w := s[2] as int + 0x100 * s[3] as int;
            && h.version == (if s[0] < 0x80 then s[0] as int else s[0] as int - 0x100)
            && h.result == (if s[1] < 0x80 then s[1] as int else s[1] as int - 0x100)
            && h.bodyLength == (if s[3] < 0x80 then w else w - 0x1_0000)
            && h.msgId == s[4] as int + 0x100 * s[5] as int + 0x1_0000 * s[6] as int + 0x100_0000 * s[7] as int
  {
    OneByte(s[0..1]);
    OneByte(s[1..2]);
    TwoBytes(s[2..4]);
    FourBytes(s[4..8]);
    hide FromBytes;
  }

  /** `checkHeader` on the bytes: version 1, and a length that is negative or at most 1024. */
  lemma AcceptsLayout(s: seq<byte>)
    requires |s| >= 8
    ensures Accepts(DecodeHeader(s)) <==> s[0] == 1 && (s[3] >= 0x80 || s[2] as int + 0x100 * s[3] as int <= 1024)
  {
    HeaderLayout(s);
    hide DecodeHeader;
  }

  lemma Unsigned8(x: int8, b: byte)
    requires x == if b < 0x80 then b as int else b as int - 0x100
    ensures b == x % 0x100
  {
  }

  lemma Unsigned16(x: int16, lo: byte, hi: byte)
    requires var w := lo as int + 0x100 * hi as int; x == if hi < 0x80 then w else w - 0x1_0000
    ensures lo as int + 0x100 * hi as int == x % 0x1_0000
  {
  }

  /** The bytes of an encoded header. */
  lemma EncodedLayout(h: Header)
    ensures var s := EncodeHeader(h);
            && s[0] == h.version % 0x100 && s[1] == h.result % 0x100
            && s[2] as int + 0x100 * s[3] as int == h.bodyLength % 0x1_0000
            && s[4] as int + 0x100 * s[5] as int + 0x1_0000 * s[6] as int + 0x100_0000 * s[7] as int == h.msgId
  {
    var s := EncodeHeader(h);
    HeaderRoundTrip(h);
    HeaderLayout(s);
    hide EncodeHeader, DecodeHeader;
    Unsigned8(h.version, s[0]);
    Unsigned8(h.result, s[1]);
    Unsigned16(h.bodyLength, s[2], s[3]);
  }

  /** A message with the given identifier, on the bytes; 3 is `NF_MESSAGE`. */
  lemma ChatLayout(s: seq<byte>)
    requires |s| >= 8
    ensures DecodeHeader(s).msgId == NF_MESSAGE <==> s[4..8] == [3, 0, 0, 0]
  {
    HeaderLayout(s);
    hide DecodeHeader;
    assert s[4..8] == [s[4], s[5], s[6], s[7]];
  }

  function Head(m: Image): Header {
    DecodeHeader(m)
  }

  /** `Msg::length`: header included; negative when the body length is. */
  function Length(m: Image): int {
    HEADER_LENGTH + Head(m).bodyLength
  }

  /** An accepted header whose body length is not negative, so that a frame exists. */
  predicate Whole(m: Image) {
    Accepts(Head(m)) && Head(m).bodyLength >= 0
  }

  /** Which messages have a frame, and how long it is, on the bytes. */
  lemma WholeLayout(m: Image)
    ensures Whole(m) <==> m[0] == 1 && m[2] as int + 0x100 * m[3] as int <= 1024
    ensures Whole(m) ==> Length(m) == 8 + m[2] as int + 0x100 * m[3] as int
  {
    HeaderLayout(m);
    AcceptsLayout(m);
    hide DecodeHeader, Accepts;
  }

  /** The bytes that `send` puts on the wire: the first `length()` bytes, never the stale ones. */
  function Frame(m: Image): (f: seq<byte>)
    requires Whole(m)
    ensures |f| == Length(m)
  {
    m[..Length(m)]
  }

  /** `memcpy` in `encodeMsg` copies `dataLength` bytes, the un-narrowed count; this is when that
      copy is defined. */
  predicate CopyDefined(data: Option<seq<byte>>, dataLength: int) {
    data.Some? && Wrap16(dataLength) > 0 ==> 0 <= dataLength <= MAX_DATA && dataLength <= |data.value|
  }

  function NewHeader(msgId: uint32, result: int, dataLength: int): Header {
    Header(VERSION, Wrap8(result), Wrap16(dataLength), msgId)
  }

  /** `Msg::encodeMsg`: overwrites the header and, if data is given, the start of the body. */
  function EncodeMsg(m: Image, msgId: uint32, result: int, data: Option<seq<byte>>, dataLength: int): Image
    requires CopyDefined(data, dataLength)
  {
    EncodeHeader(NewHeader(msgId, result, dataLength))
    + if Wrap16(dataLength) > 0 && data.Some?
      then data.value[..dataLength] + m[HEADER_LENGTH + dataLength..]
      else m[HEADER_LENGTH..]
  }

  lemma HeadOfMessage(m: Image, msgId: uint32, result: int, data: Option<seq<byte>>, dataLength: int)
    requires CopyDefined(data, dataLength)
    ensures Head(EncodeMsg(m, msgId, result, data, dataLength)) == NewHeader(msgId, result, dataLength)
  {
    var h := NewHeader(msgId, result, dataLength);
    var e := EncodeMsg(m, msgId, result, data, dataLength);
    assert e == EncodeHeader(h) + e[HEADER_LENGTH..];
    HeadOfEncoded(h, e[HEADER_LENGTH..]);
  }

  /** Reading back what `encodeMsg` wrote: the header is accepted exactly when the 16-bit wrap of
      the length is at most 1024, whatever the result code, and the length survives exactly when it
      fits in 16 bits. */
  lemma EncodeThenCheck(m: Image, msgId: uint32, result: int, data: Option<seq<byte>>, dataLength: int)
    requires CopyDefined(data, dataLength)
    ensures var h := Head(EncodeMsg(m, msgId, result, data, dataLength));
            && (Accepts(h) <==> Wrap16(dataLength) <= MAX_DATA)
            && (h.bodyLength == dataLength <==> -0x8000 <= dataLength < 0x8000)
            && h.msgId == msgId
            && (h.result - result) % 0x100 == 0
  {
    HeadOfMessage(m, msgId, result, data, dataLength);
    Wrap8Congruent(result, result);
    Wrap16Exact(dataLength);
  }

  /** Two result codes give the same message exactly when they agree modulo 256. */
  lemma ResultsCollide(m: Image, msgId: uint32, r1: int, r2: int, data: Option<seq<byte>>, dataLength: int)
    requires CopyDefined(data, dataLength)
    ensures EncodeMsg(m, msgId, r1, data, dataLength) == EncodeMsg(m, msgId, r2, data, dataLength)
            <==> (r1 - r2) % 0x100 == 0
  {
    HeadOfMessage(m, msgId, r1, data, dataLength);
    HeadOfMessage(m, msgId, r2, data, dataLength);
    Wrap8Congruent(r1, r2);
  }

  /** The frame of an encoded message carries exactly the data, and nothing of what the message
      object held before. */
  lemma EncodedFrame(m: Image, msgId: uint32, result: int, data: seq<byte>)
    requires |data| <= MAX_DATA
    ensures var e := EncodeMsg(m, msgId, result, Some(data), |data|);
            && Whole(e)
            && Frame(e) == EncodeHeader(NewHeader(msgId, result, |data|)) + data
  {
    EncodeThenCheck(m, msgId, result, Some(data), |data|);
  }

  lemma Narrowed(result: int, length: int)
    ensures Wrap8(result) % 0x100 == result % 0x100
    ensures Wrap16(length) % 0x1_0000 == length % 0x1_0000
  {
  }

  /** Every byte of an encoded message: the header's fields in their places, then the first
      `dataLength` bytes of the data, if there are any to copy, and for the rest what the object held. */
  lemma EncodedBytes(m: Image, msgId: uint32, result: int, data: Option<seq<byte>>, dataLength: int)
    requires CopyDefined(data, dataLength)
    ensures var e := EncodeMsg(m, msgId, result, data, dataLength);
            && e[0] == 1 && e[1] == result % 0x100
            && e[2] as int + 0x100 * e[3] as int == dataLength % 0x1_0000
            && e[4] as int + 0x100 * e[5] as int + 0x1_0000 * e[6] as int + 0x100_0000 * e[7] as int == msgId
            && if data.Some? && Wrap16(dataLength) > 0
               then (forall k | 0 <= k < dataLength :: e[8 + k] == data.value[k])
                    && e[8 + dataLength..] == m[8 + dataLength..]
               else e[8..] == m[8..]
  {
    var h := NewHeader(msgId, result, dataLength);
    EncodedLayout(h);
    Narrowed(result, dataLength);
    hide EncodeHeader, Wrap8, Wrap16;
    var header := EncodeHeader(h);
    var e := EncodeMsg(m, msgId, result, data, dataLength);
    assert forall k | 0 <= k < 8 :: e[k] == header[k];
  }

  /** `Msg::setBodyLength`: narrows first, then clamps from above only. */
  function SetBodyLength(m: Image, length: int): Image {
    var h := Head(m);
    EncodeHeader(h.(bodyLength := if Wrap16(length) > MAX_DATA then MAX_DATA else Wrap16(length)))
    + m[HEADER_LENGTH..]
  }

  lemma Clamped(length: int)
    ensures var n := Wrap16(length);
            && ((if n > MAX_DATA then MAX_DATA else n) == length <==> -0x8000 <= length <= MAX_DATA)
            && (n - length) % 0x1_0000 == 0
  {
  }

  /** After `setBodyLength` the length never makes `checkHeader` fail; the other header fields and
      the body are kept; and the length asked for is the length stored exactly when it lies in
      -32768..1024. */
  lemma SetBodyLengthChecks(m: Image, length: int)
    ensures var s := SetBodyLength(m, length);
            && (Accepts(Head(s)) <==> Head(m).version == VERSION)
            && Head(s) == Head(m).(bodyLength := Head(s).bodyLength)
            && s[HEADER_LENGTH..] == m[HEADER_LENGTH..]
            && (Head(s).bodyLength == length <==> -0x8000 <= length <= MAX_DATA)
            && (Wrap16(length) > 1024 ==> Head(s).bodyLength == 1024)
            && (Wrap16(length) <= 1024 ==> (Head(s).bodyLength - length) % 0x1_0000 == 0)
  {
    var h := Head(m);
    var h' := h.(bodyLength := if Wrap16(length) > MAX_DATA then MAX_DATA else Wrap16(length));
    HeadOfEncoded(h', m[HEADER_LENGTH..]);
    Clamped(length);
    hide Wrap16, EncodeHeader, DecodeHeader;
    assert SetBodyLength(m, length) == EncodeHeader(h') + m[HEADER_LENGTH..];
  }

  function FramesOf(ms: seq<Image>): (fs: seq<seq<byte>>)
    requires forall m <- ms :: Whole(m)
    ensures |fs| == |ms|
    ensures forall i | 0 <= i < |ms| :: fs[i] == Frame(ms[i])
  {
    seq(|ms|, i requires 0 <= i < |ms| => Frame(ms[i]))
  }

  function TotalLength(ms: seq<Image>): int {
    if ms == [] then 0 else TotalLength(ms[..|ms| - 1]) + Length(ms[|ms| - 1])
  }

  lemma {:induction false} TotalLengthAppend(a: seq<Image>, b: seq<Image>)
    ensures TotalLength(a + b) == TotalLength(a) + TotalLength(b)
  {
    if b == [] {
      assert a + b == a;
    } else {
      assert (a + b)[..|a + b| - 1] == a + b[..|b| - 1];
      TotalLengthAppend(a, b[..|b| - 1]);
    }
  }
}
