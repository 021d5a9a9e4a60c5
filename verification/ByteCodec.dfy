/** Little-endian integers inside a byte string: what `memcpy` into a packed,
    little-endian struct field reads and writes. */
module ByteCodec {

  type Byte = x: int | 0 <= x < 256

  const TWO32: int := 0x1_0000_0000
  const TWO64: int := 0x1_0000_0000_0000_0000

  type U32 = x: int | 0 <= x < TWO32
  type U64 = x: int | 0 <= x < TWO64

  function U32At(b: seq<Byte>, off: nat): (n: U32)
    requires off + 4 <= |b|
  {
    (b[off] as int) + 0x100 * (b[off + 1] as int) + 0x1_0000 * (b[off + 2] as int)
    + 0x100_0000 * (b[off + 3] as int)
  }

  /** The number whose base-256 digits these are, lowest first. */
  function LittleEndian(b: seq<Byte>): nat {
    if b == [] then 0 else (b[0] as int) + 0x100 * LittleEndian(b[1..])
  }

  function U64At(b: seq<Byte>, off: nat): (n: U64)
    requires off + 8 <= |b|
  {
    U32At(b, off) + TWO32 * U32At(b, off + 4)
  }

  lemma FourDigits(s: seq<Byte>)
    requires 4 <= |s|
    ensures LittleEndian(s) == U32At(s, 0) + TWO32 * LittleEndian(s[4..])
  {
    var n := LittleEndian(s[4..]);
    assert s[3..][1..] == s[4..] && s[2..][1..] == s[3..] && s[1..][1..] == s[2..];
    assert LittleEndian(s[3..]) == (s[3] as int) + 0x100 * n;
    assert LittleEndian(s[2..]) == (s[2] as int) + 0x100 * LittleEndian(s[3..]);
    assert LittleEndian(s[1..]) == (s[1] as int) + 0x100 * LittleEndian(s[2..]);
  }

  lemma U32IsLittleEndian(b: seq<Byte>, off: nat)
    requires off + 4 <= |b|
    ensures U32At(b, off) == LittleEndian(b[off..off + 4])
  {
    FourDigits(b[off..off + 4]);
  }

  lemma U64IsLittleEndian(b: seq<Byte>, off: nat)
    requires off + 8 <= |b|
    ensures U64At(b, off) == LittleEndian(b[off..off + 8])
  {
    var s := b[off..off + 8];
    FourDigits(s);
    assert s[4..] == b[off + 4..off + 8];
    U32IsLittleEndian(b, off + 4);
  }

  function EncodeU32(n: U32): (b: seq<Byte>)
    ensures |b| == 4 && U32At(b, 0) == n
  {
    var n1 := n / 0x100;
    var n2 := n1 / 0x100;
    [n % 0x100, n1 % 0x100, n2 % 0x100, n2 / 0x100]
  }

  function EncodeU64(n: U64): (b: seq<Byte>)
    ensures |b| == 8 && U64At(b, 0) == n
  {
    var lo, hi := EncodeU32(n % TWO32), EncodeU32(n / TWO32);
    assert U32At(lo + hi, 0) == U32At(lo, 0) && U32At(lo + hi, 4) == U32At(hi, 0);
    lo + hi
  }

  /** The two byte strings hold the same bytes on [lo, hi). */
  ghost predicate Agree(b: seq<Byte>, c: seq<Byte>, lo: nat, hi: nat) {
    hi <= |b| && hi <= |c| && forall p :: lo <= p < hi ==> b[p] == c[p]
  }

  lemma AgreeSlice(b: seq<Byte>, c: seq<Byte>, lo: nat, hi: nat, s: nat, e: nat)
    requires Agree(b, c, lo, hi) && lo <= s <= e <= hi
    ensures b[s..e] == c[s..e]
  {
    forall i | 0 <= i < e - s ensures b[s..e][i] == c[s..e][i] {
      assert b[s + i] == c[s + i];
    }
  }
}
