/** Machine integers, as ranges of int: every wrap-around is written out where the
    C code has one. Big-endian numbers of any width. */
module Machine {
  type byte = x: int | 0 <= x < 0x100
  type uint16 = x: int | 0 <= x < 0x1_0000
  type uint32 = x: int | 0 <= x < 0x1_0000_0000
  type uint64 = x: int | 0 <= x < 0x1_0000_0000_0000_0000

  /** The wrap-around of unsigned arithmetic. */
  function Mod32(x: int): uint32 { x % 0x1_0000_0000 }

  function Mod64(x: int): uint64 { x % 0x1_0000_0000_0000_0000 }

  function Pow256(n: nat): (p: nat)
    ensures p > 0
  {
    if n == 0 then 1 else 0x100 * Pow256(n - 1)
  }

  /** The number that bytes stand for, most significant first. */
  function BigEndian(s: seq<byte>): nat {
    if s == [] then 0 else BigEndian(s[..|s| - 1]) * 0x100 + s[|s| - 1]
  }

  /** The low n bytes of a number, most significant first. */
  function Bytes(v: nat, n: nat): (s: seq<byte>)
    ensures |s| == n
  {
    if n == 0 then [] else Bytes(v / 0x100, n - 1) + [v % 0x100]
  }

  lemma {:induction false} BigEndianBound(s: seq<byte>)
    ensures BigEndian(s) < Pow256(|s|)
  {
    if s != [] { BigEndianBound(s[..|s| - 1]); }
  }

  lemma Pow256Values()
    ensures Pow256(1) == 0x100 && Pow256(2) == 0x1_0000
    ensures Pow256(4) == 0x1_0000_0000 && Pow256(8) == 0x1_0000_0000_0000_0000
  {
    assert Pow256(3) == 0x100_0000;
    assert Pow256(5) == 0x100_0000_0000;
    assert Pow256(6) == 0x1_0000_0000_0000;
    assert Pow256(7) == 0x100_0000_0000_0000;
  }

  /** Writing and reading back keeps a number modulo the width. */
  lemma {:induction false} BytesRoundTrip(v: nat, n: nat)
    ensures BigEndian(Bytes(v, n)) == v % Pow256(n)
  {
    if n > 0 {
      BytesRoundTrip(v / 0x100, n - 1);
      var s := Bytes(v, n);
      assert s[..n - 1] == Bytes(v / 0x100, n - 1);
      SplitRemainder(v, Pow256(n - 1));
    }
  }

  lemma SplitRemainder(v: nat, p: nat)
    requires p > 0
    ensures v / 0x100 % p * 0x100 + v % 0x100 == v % (0x100 * p)
  {
    var q, r := v / 0x100 / p, v / 0x100 % p;
    assert v == 0x100 * (q * p + r) + v % 0x100;
    assert v == q * (0x100 * p) + (r * 0x100 + v % 0x100);
    UniqueRemainder(v, 0x100 * p, q, r * 0x100 + v % 0x100);
  }

  lemma UniqueRemainder(v: int, d: int, q: int, r: int)
    requires d > 0 && 0 <= r < d && v == q * d + r
    ensures v % d == r && v / d == q
  {
    var k := v / d - q;
    assert k * d == r - v % d;
    assert k >= 1 ==> k * d >= d;
    assert k <= -1 ==> k * d <= -d;
  }

  /** Reading and writing back keeps the bytes. */
  lemma {:induction false} BigEndianRoundTrip(s: seq<byte>)
    ensures Bytes(BigEndian(s), |s|) == s
  {
    if s != [] { BigEndianRoundTrip(s[..|s| - 1]); }
  }

  function Be32(b: seq<byte>, i: nat): uint32
    requires i + 4 <= |b|
  {
    BigEndianBound(b[i..i + 4]);
    Pow256Values();
    BigEndian(b[i..i + 4])
  }

  function Be64(b: seq<byte>, i: nat): uint64
    requires i + 8 <= |b|
  {
    BigEndianBound(b[i..i + 8]);
    Pow256Values();
    BigEndian(b[i..i + 8])
  }
}
