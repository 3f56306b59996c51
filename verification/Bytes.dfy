/** Little-endian integers and the 4-byte alignment of netlink (sections 2.2 and 2.3.2 of RFC 3549). */
module Bytes {
  type byte = x: int | 0 <= x < 256

  type bytes = seq<byte>

  const U16_LIMIT := 0x1_0000

  const U32_LIMIT := 0x1_0000_0000

  function U16(lo: byte, hi: byte): nat {
    var l: int, h: int := lo, hi;
    l + 256 * h
  }

  function U32(b: bytes): nat
    requires |b| == 4
  {
    var b0: int, b1: int, b2: int, b3: int := b[0], b[1], b[2], b[3];
    b0 + 256 * b1 + 65536 * b2 + 16777216 * b3
  }

  /** The lowest width bytes of n, the lowest first. */
  function LittleEndian(n: nat, width: nat): (b: bytes)
    ensures |b| == width
    decreases width, n
  {
    if width == 0 then [] else [n % 256] + LittleEndian(n / 256, width - 1)
  }

  function ToU16(n: nat): (b: bytes)
    ensures |b| == 2
  {
    LittleEndian(n, 2)
  }

  function ToU32(n: nat): (b: bytes)
    ensures |b| == 4
  {
    LittleEndian(n, 4)
  }

  lemma {:induction false} LittleEndianAt(n: nat, width: nat)
    requires width > 0
    ensures LittleEndian(n, width)[0] == n % 256
    ensures LittleEndian(n, width)[1..] == LittleEndian(n / 256, width - 1)
  {
  }

  lemma U16RoundTrip(n: nat)
    ensures U16(ToU16(n)[0], ToU16(n)[1]) == n % U16_LIMIT
  {
    LittleEndianAt(n, 2);
    LittleEndianAt(n / 256, 1);
  }

  lemma FourDigits(n: nat, b0: nat, b1: nat, b2: nat, b3: nat)
    requires b0 == n % 256 && b1 == n / 256 % 256 && b2 == n / 256 / 256 % 256
    requires b3 == n / 256 / 256 / 256 % 256
    ensures b0 + 256 * b1 + 65536 * b2 + 16777216 * b3 == n % U32_LIMIT
  {
  }

  lemma U32RoundTrip(n: nat)
    ensures U32(ToU32(n)) == n % U32_LIMIT
  {
    LittleEndianAt(n, 4);
    LittleEndianAt(n / 256, 3);
    LittleEndianAt(n / 256 / 256, 2);
    LittleEndianAt(n / 256 / 256 / 256, 1);
    var b := ToU32(n);
    FourDigits(n, b[0], b[1], b[2], b[3]);
  }

  function Align4(n: nat): (r: nat)
    ensures n <= r < n + 4 && r % 4 == 0
  {
    (n + 3) / 4 * 4
  }

  function Zeros(n: nat): (z: bytes)
    ensures |z| == n && forall i | 0 <= i < n :: z[i] == 0
  {
    seq(n, _ => 0)
  }

  function Padded(b: bytes): (p: bytes)
    ensures |p| == Align4(|b|) && b <= p
  {
    b + Zeros(Align4(|b|) - |b|)
  }

  /** The bytes part stand in data from offset on. */
  ghost predicate At(data: bytes, offset: nat, part: bytes) {
    offset + |part| <= |data| && data[offset..offset + |part|] == part
  }

  lemma AtFirst(data: bytes, offset: nat, a: bytes, b: bytes)
    requires At(data, offset, a + b)
    ensures At(data, offset, a) && At(data, offset + |a|, b)
  {
    assert data[offset..offset + |a|] == data[offset..offset + |a + b|][..|a|];
    assert data[offset + |a|..offset + |a| + |b|] == data[offset..offset + |a + b|][|a|..];
  }

  /** The aligned size is the least multiple of four that is large enough. */
  lemma AlignedIsLeast(n: nat, r: nat)
    ensures r == Align4(n) <==> n <= r && r % 4 == 0 && forall m: nat | n <= m && m % 4 == 0 :: r <= m
  {
    assert Align4(n) % 4 == 0;
  }

  /** The lowest byte comes first. */
  lemma LowestFirst(n: nat)
    ensures ToU16(n) == [n % 256, n / 256 % 256]
    ensures ToU32(n) == [n % 256, n / 256 % 256, n / 256 / 256 % 256, n / 256 / 256 / 256 % 256]
  {
    LittleEndianAt(n, 2);
    LittleEndianAt(n / 256, 1);
    LittleEndianAt(n, 4);
    LittleEndianAt(n / 256, 3);
    LittleEndianAt(n / 256 / 256, 2);
    LittleEndianAt(n / 256 / 256 / 256, 1);
  }

  /** Reading what was written; only the low 16 or 32 bits are kept. */
  lemma WrittenIsRead(n: nat)
    ensures U16(ToU16(n)[0], ToU16(n)[1]) == n % 0x1_0000
    ensures U32(ToU32(n)) == n % 0x1_0000_0000
  {
    U16RoundTrip(n);
    U32RoundTrip(n);
  }
}
