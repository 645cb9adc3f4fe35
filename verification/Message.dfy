/** include/Msg.h: the message object, written in place. */
module Message {
  import opened Bytes
  import F = Frames

  class Msg {
    const raw: array<byte>

    ghost predicate Valid() {
      raw.Length == F.IMAGE_LENGTH
    }

    /** The object representation. */
    ghost function Value(): F.Image
      requires Valid()
      reads raw
    {
      raw[..]
    }

    /** A default-constructed message is not initialised: its bytes are arbitrary. */
    constructor ()
      ensures Valid() && fresh(raw)
    {
      raw := new byte[F.IMAGE_LENGTH];
    }

    /** `memcpy`, or the kernel filling a read buffer. */
    method Overwrite(at: nat, bytes: seq<byte>)
      requires Valid() && at + |bytes| <= F.IMAGE_LENGTH
      modifies raw
      ensures raw[..] == old(raw[..at]) + bytes + old(raw[at + |bytes|..])
    {
      for i := 0 to |bytes|
        invariant raw[..at + i] == old(raw[..at]) + bytes[..i]
        invariant raw[at + i..] == old(raw[at + i..])
      {
        raw[at + i] := bytes[i];
        assert raw[..at + i + 1] == raw[..at + i] + [bytes[i]];
        assert bytes[..i + 1] == bytes[..i] + [bytes[i]];
      }
      assert raw[..] == raw[..at + |bytes|] + raw[at + |bytes|..];
      assert bytes[..|bytes|] == bytes;
    }

    method Copy() returns (m: F.Image)
      requires Valid()
      ensures m == Value()
    {
      m := raw[..];
    }

    method CheckHeader() returns (ok: bool)
      requires Valid()
      ensures ok <==> F.Accepts(F.Head(Value()))
      ensures ok <==> raw[0] == 1 && (raw[3] >= 0x80 || raw[2] as int + 0x100 * raw[3] as int <= 1024)
    {
      F.AcceptsLayout(raw[..]);
      hide F.DecodeHeader;
      var h := F.DecodeHeader(raw[..]);
      if h.version != F.VERSION {
        return false;
      }
      if h.bodyLength > F.MAX_DATA {
        return false;
      }
      if h.result > F.ERROR_CODE {
        return false;
      }
      return true;
    }

    /** `encodeMsg`: header first, then the data if there is any to copy. */
    method EncodeMsg(msgId: uint32, result: int, data: Option<seq<byte>>, dataLength: int)
      requires Valid() && F.CopyDefined(data, dataLength)
      modifies raw
      ensures Value() == F.EncodeMsg(old(Value()), msgId, result, data, dataLength)
      ensures raw[0] == 1 && raw[1] == result % 0x100
      ensures raw[2] as int + 0x100 * raw[3] as int == dataLength % 0x1_0000
      ensures raw[4] as int + 0x100 * raw[5] as int + 0x1_0000 * raw[6] as int + 0x100_0000 * raw[7] as int == msgId
      ensures if data.Some? && Wrap16(dataLength) > 0
              then (forall k | 0 <= k < dataLength :: raw[8 + k] == data.value[k])
                   && raw[8 + dataLength..] == old(raw[8 + dataLength..])
              else raw[8..] == old(raw[8..])
    {
      F.EncodedBytes(raw[..], msgId, result, data, dataLength);
      hide F.EncodeHeader, F.DecodeHeader;
      var h := F.NewHeader(msgId, result, dataLength);
      Overwrite(0, F.EncodeHeader(h));
      if h.bodyLength > 0 && data.Some? {
        Overwrite(F.HEADER_LENGTH, data.value[..dataLength]);
      }
    }

    /** `setBodyLength`: assigns, which narrows, and then clamps what it assigned. */
    method SetBodyLength(length: int)
      requires Valid()
      modifies raw
      ensures Value() == F.SetBodyLength(old(Value()), length)
    {
      var h := F.DecodeHeader(raw[..]).(bodyLength := Wrap16(length));
      hide F.EncodeHeader, F.DecodeHeader, Wrap16;
      if h.bodyLength > F.MAX_DATA {
        h := h.(bodyLength := F.MAX_DATA);
      }
      Overwrite(0, F.EncodeHeader(h));
    }
  }
}
