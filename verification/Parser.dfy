/** The one-shot meaning of a byte stream: the whole frames a reader takes out of it. */
module Parser {
  import opened Bytes
  import opened Frames

  /** The length of the unit a header announces: a rejected header is a unit by itself. */
  function UnitLength(h: Header): int {
    if Accepts(h) then HEADER_LENGTH + h.bodyLength else HEADER_LENGTH
  }

  /** No further unit can be completed: the header is incomplete, or it is accepted with a negative
      length, or its body is incomplete. */
  predicate Stalled(s: seq<byte>) {
    |s| < HEADER_LENGTH || UnitLength(DecodeHeader(s)) < HEADER_LENGTH || |s| < UnitLength(DecodeHeader(s))
  }

  /** Rejected headers are dropped eight bytes at a time; accepted frames are kept. */
  function Parse(s: seq<byte>): seq<seq<byte>>
    decreases |s|
  {
    if Stalled(s) then []
    else
      var h := DecodeHeader(s);
      (if Accepts(h) then [s[..UnitLength(h)]] else []) + Parse(s[UnitLength(h)..])
  }

  /** The first unit of a stream, on the bytes. */
  lemma UnitOnBytes(s: seq<byte>)
    requires |s| >= 8
    ensures var h := DecodeHeader(s);
            var n := s[2] as int + 0x100 * s[3] as int;
            && (Accepts(h) <==> s[0] == 1 && (s[3] >= 0x80 || n <= 1024))
            && UnitLength(h) == (if !Accepts(h) then 8 else if s[3] < 0x80 then 8 + n else 8 + n - 0x1_0000)
            && n < 0x1_0000 && (s[3] >= 0x80 <==> n >= 0x8000)
  {
    HeaderLayout(s);
    AcceptsLayout(s);
    hide DecodeHeader, Accepts;
  }

  lemma ParseUnit(s: seq<byte>)
    requires |s| >= 8
    ensures var h := DecodeHeader(s);
            var n := UnitLength(h);
            && (n < 8 || |s| < n ==> Parse(s) == [])
            && (8 <= n <= |s| ==> Parse(s) == (if Accepts(h) then [s[..n]] else []) + Parse(s[n..]))
  {
    hide DecodeHeader, Accepts, UnitLength;
  }

  /** The parser on the bytes themselves: eight bytes are dropped unless they start with 1 and announce a
      length that is negative or at most 1024; a negative length stops the reader; and otherwise the
      frame is the eight bytes and as many more as announced. */
  lemma ParseOnBytes(s: seq<byte>)
    ensures |s| < 8 ==> Parse(s) == []
    ensures |s| >= 8 ==>
              var n := s[2] as int + 0x100 * s[3] as int;
              Parse(s) == if s[0] != 1 || (s[3] < 0x80 && n > 1024) then Parse(s[8..])
                          else if s[3] >= 0x80 || |s| < 8 + n then []
                          else [s[..8 + n]] + Parse(s[8 + n..])
  {
    if |s| < 8 {
      assert Stalled(s);
    } else {
      hide *;
      UnitOnBytes(s);
      ParseUnit(s);
      assert [] + Parse(s[8..]) == Parse(s[8..]);
    }
  }

  /** One complete unit of a stream: a rejected header, or an accepted header with all its body. */
  predicate Segment(p: seq<byte>) {
    |p| >= HEADER_LENGTH && |p| == UnitLength(DecodeHeader(p))
  }

  predicate Segments(ps: seq<seq<byte>>) {
    forall p <- ps :: Segment(p)
  }

  /** The frames among the units. */
  function Kept(ps: seq<seq<byte>>): seq<seq<byte>>
    requires Segments(ps)
  {
    if ps == [] then []
    else assert Segment(ps[0]); (if Accepts(DecodeHeader(ps[0])) then [ps[0]] else []) + Kept(ps[1..])
  }

  lemma {:induction false} KeptSnoc(ps: seq<seq<byte>>, p: seq<byte>)
    requires Segments(ps) && Segment(p)
    ensures Segments(ps + [p])
    ensures Kept(ps + [p]) == Kept(ps) + if Accepts(DecodeHeader(p)) then [p] else []
  {
    hide DecodeHeader;
    if ps == [] {
      assert ps + [p] == [p];
    } else {
      assert (ps + [p])[1..] == ps[1..] + [p];
      KeptSnoc(ps[1..], p);
    }
  }

  lemma SegmentInFront(p: seq<byte>, rest: seq<byte>)
    requires Segment(p)
    ensures !Stalled(p + rest) && DecodeHeader(p + rest) == DecodeHeader(p)
  {
    hide DecodeHeader;
    HeaderOfPrefix(p, rest);
  }

  lemma {:induction false} ParseSegment(p: seq<byte>, rest: seq<byte>)
    requires Segment(p)
    ensures Parse(p + rest) == (if Accepts(DecodeHeader(p)) then [p] else []) + Parse(rest)
  {
    SegmentInFront(p, rest);
    assert (p + rest)[..|p|] == p && (p + rest)[|p|..] == rest;
  }

  /** Units in front of a stream contribute exactly the frames among them. */
  lemma {:induction false} ParseSegments(ps: seq<seq<byte>>, rest: seq<byte>)
    requires Segments(ps)
    ensures Parse(Concat(ps) + rest) == Kept(ps) + Parse(rest)
  {
    hide DecodeHeader;
    if ps == [] {
      assert Concat(ps) + rest == rest;
    } else {
      var p, tail := ps[0], Concat(ps[1..]) + rest;
      assert Segment(p);
      var kept := if Accepts(DecodeHeader(p)) then [p] else [];
      calc {
        Parse(Concat(ps) + rest);
        { assert Concat(ps) + rest == p + tail; }
        Parse(p + tail);
        { ParseSegment(p, tail); }
        kept + Parse(tail);
        { ParseSegments(ps[1..], rest); }
        kept + (Kept(ps[1..]) + Parse(rest));
        (kept + Kept(ps[1..])) + Parse(rest);
        Kept(ps) + Parse(rest);
      }
    }
  }

  lemma {:induction false} Split(s: seq<byte>) returns (ps: seq<seq<byte>>, rest: seq<byte>)
    ensures Segments(ps) && Stalled(rest) && Concat(ps) + rest == s
    decreases |s|
  {
    hide DecodeHeader;
    if Stalled(s) {
      ps, rest := [], s;
    } else {
      var n := UnitLength(DecodeHeader(s));
      HeaderOfPrefix(s[..n], s[n..]);
      assert s[..n] + s[n..] == s;
      var qs;
      qs, rest := Split(s[n..]);
      ps := [s[..n]] + qs;
      assert Concat(ps) + rest == s[..n] + (Concat(qs) + rest);
    }
  }

  ghost predicate SplitsInto(s: seq<byte>, ps: seq<seq<byte>>, rest: seq<byte>) {
    Segments(ps) && Stalled(rest) && Concat(ps) + rest == s
  }

  /** The parser is the only function that cuts a stream into complete units and a stalled rest and
      keeps the accepted ones. */
  lemma ParseIsTheFraming(s: seq<byte>, out: seq<seq<byte>>)
    ensures out == Parse(s) <==> exists ps, rest :: SplitsInto(s, ps, rest) && out == Kept(ps)
  {
    var ps, rest := Split(s);
    assert SplitsInto(s, ps, rest);
    ParseSegments(ps, rest);
    forall qs, r | SplitsInto(s, qs, r)
      ensures Kept(qs) == Parse(s)
    {
      ParseSegments(qs, r);
    }
  }

  /** What is delivered of a stream is never revised when more of it arrives. */
  lemma {:induction false} ParsePrefix(s: seq<byte>, more: seq<byte>)
    ensures Parse(s) <= Parse(s + more)
  {
    var ps, rest := Split(s);
    assert s + more == Concat(ps) + (rest + more);
    ParseSegments(ps, rest);
    ParseSegments(ps, rest + more);
  }

  lemma FrameIsSegment(m: Image)
    requires Whole(m)
    ensures Segment(Frame(m)) && DecodeHeader(Frame(m)) == Head(m)
  {
    HeaderOfPrefix(Frame(m), m[Length(m)..]);
    assert Frame(m) + m[Length(m)..] == m;
  }

  lemma {:induction false} KeptFrames(ms: seq<Image>)
    requires forall m <- ms :: Whole(m)
    ensures Segments(FramesOf(ms)) && Kept(FramesOf(ms)) == FramesOf(ms)
  {
    hide DecodeHeader;
    if ms != [] {
      var n := |ms| - 1;
      FrameIsSegment(ms[n]);
      KeptFrames(ms[..n]);
      assert FramesOf(ms) == FramesOf(ms[..n]) + [Frame(ms[n])];
      KeptSnoc(FramesOf(ms[..n]), Frame(ms[n]));
    }
  }

  /** Serialising messages and parsing the bytes gives their frames back. */
  lemma ParseRoundTrip(ms: seq<Image>)
    requires forall m <- ms :: Whole(m)
    ensures Parse(Concat(FramesOf(ms))) == FramesOf(ms)
  {
    KeptFrames(ms);
    ParseSegments(FramesOf(ms), []);
    assert Concat(FramesOf(ms)) + [] == Concat(FramesOf(ms));
  }
}
