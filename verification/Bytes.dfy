/** Fixed-width integers of the wire format, and sequences of byte strings. */
module Bytes {
  type byte = x: int | 0 <= x < 0x100
  type int8 = x: int | -0x80 <= x < 0x80
  type int16 = x: int | -0x8000 <= x < 0x8000
  type uint32 = x: int | 0 <= x < 0x1_0000_0000
  type uint64 = x: int | 0 <= x < 0x1_0000_0000_0000_0000

  datatype Option<+T> = None | Some(value: T)

  /** Narrowing of a C++ `int` to `int8_t`. */
  function Wrap8(x: int): int8 {
    (x + 0x80) % 0x100 - 0x80
  }

  /** Narrowing of a C++ `int` to `int16_t`. */
  function Wrap16(x: int): int16 {
    (x + 0x8000) % 0x1_0000 - 0x8000
  }

  /** Conversion of a C++ `int`, or of an overflowing sum, to `uint64_t`. */
  function Wrap64(x: int): uint64 {
    x % 0x1_0000_0000_0000_0000
  }

  /** Widening back to unsigned undoes the narrowing of an unsigned value of the same width. */
  lemma WrapsUnsigned(b: nat, w: nat)
    requires b < 0x100 && w < 0x1_0000
    ensures Wrap8(b) % 0x100 == b
    ensures Wrap16(w) % 0x1_0000 == w
  {
  }

  lemma WrapsSigned(b: int8, w: int16)
    ensures Wrap8(b % 0x100) == b
    ensures Wrap16(w % 0x1_0000) == w
  {
  }

  lemma Wrap8Congruent(x: int, y: int)
    ensures (Wrap8(x) - x) % 0x100 == 0
    ensures Wrap8(x) == Wrap8(y) <==> (x - y) % 0x100 == 0
  {
  }

  lemma Wrap16Exact(x: int)
    ensures Wrap16(x) == x <==> -0x8000 <= x < 0x8000
  {
  }

  /** Equal counters differ by a multiple of 2^64. */
  lemma Wrap64Congruent(x: int, y: int)
    ensures Wrap64(x) == Wrap64(y) <==> (x - y) % 0x1_0000_0000_0000_0000 == 0
    ensures 0 <= x < 0x1_0000_0000_0000_0000 ==> Wrap64(x) == x
  {
  }

  lemma Wrap64Add(x: int, y: int)
    ensures Wrap64(Wrap64(x) + y) == Wrap64(x + y)
  {
  }

  lemma Regroup<T>(a: seq<T>, b: seq<T>, c: seq<T>)
    ensures (a + b) + c == a + (b + c)
  {
  }

  lemma SliceSnoc<T>(s: seq<T>, lo: nat, hi: nat)
    requires lo < hi <= |s|
    ensures s[lo..hi] == s[lo..hi - 1] + [s[hi - 1]]
  {
  }

  lemma TakeDrop<T>(s: seq<T>, n: nat)
    requires n <= |s|
    ensures s[..n] + s[n..] == s
  {
  }

  lemma MiddlePart<T>(x: seq<T>, y: seq<T>, z: seq<T>)
    ensures ((x + y) + z)[|x|..|x + y|] == y
  {
  }

  lemma FirstPart<T>(x: seq<T>, y: seq<T>, i: nat, j: nat)
    requires i <= j <= |x|
    ensures (x + y)[i..j] == x[i..j]
  {
  }

  /** The values that fit in `n` bytes are those below `Range(n)`. */
  function Range(n: nat): nat {
    if n == 0 then 1 else 0x100 * Range(n - 1)
  }

  /** The object representation of an unsigned integer on a little-endian host. */
  function ToBytes(x: nat, n: nat): (s: seq<byte>)
    ensures |s| == n
  {
    if n == 0 then [] else [x % 0x100] + ToBytes(x / 0x100, n - 1)
  }

  function FromBytes(s: seq<byte>): (x: nat)
    ensures x < Range(|s|)
  {
    if s == [] then 0 else s[0] as int + 0x100 * FromBytes(s[1..])
  }

  lemma {:induction false} FromToBytes(x: nat, n: nat)
    requires x < Range(n)
    ensures FromBytes(ToBytes(x, n)) == x
  {
    if n > 0 {
      FromToBytes(x / 0x100, n - 1);
      assert ToBytes(x, n)[1..] == ToBytes(x / 0x100, n - 1);
    }
  }

  lemma {:induction false} ToFromBytes(s: seq<byte>)
    ensures ToBytes(FromBytes(s), |s|) == s
  {
    if s != [] {
      ToFromBytes(s[1..]);
      assert FromBytes(s) / 0x100 == FromBytes(s[1..]);
      assert s == [s[0]] + s[1..];
    }
  }

  function Concat(parts: seq<seq<byte>>): seq<byte> {
    if parts == [] then [] else parts[0] + Concat(parts[1..])
  }

  lemma {:induction false} ConcatAppend(a: seq<seq<byte>>, b: seq<seq<byte>>)
    ensures Concat(a + b) == Concat(a) + Concat(b)
  {
    if a == [] {
      assert a + b == b;
    } else {
      assert (a + b)[1..] == a[1..] + b;
      ConcatAppend(a[1..], b);
    }
  }

  lemma ConcatSnoc(a: seq<seq<byte>>, p: seq<byte>)
    ensures Concat(a + [p]) == Concat(a) + p
  {
    ConcatAppend(a, [p]);
    assert Concat([p]) == p + Concat([]);
  }
}
