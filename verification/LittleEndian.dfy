/** Little-endian integers and byte-range replacement. */
module LittleEndian {
  import opened Machine

  function Pow256(n: nat): (p: nat)
    ensures p > 0
  {
    if n == 0 then 1 else 256 * Pow256(n - 1)
  }

  /** The `n` low bytes of `x`, least significant first. */
  function LeBytes(x: nat, n: nat): (b: Bytes)
    ensures |b| == n
  {
    if n == 0 then [] else [x % 256] + LeBytes(x / 256, n - 1)
  }

  function LeNat(b: Bytes): (x: nat) {
    if b == [] then 0 else b[0] + 256 * LeNat(b[1..])
  }

  lemma {:induction false} LeNatBound(b: Bytes)
    ensures LeNat(b) < Pow256(|b|)
  {
    if b != [] {
      LeNatBound(b[1..]);
    }
  }

  lemma {:induction false} LeRoundTrip(x: nat, n: nat)
    requires x < Pow256(n)
    ensures LeNat(LeBytes(x, n)) == x
  {
    if n > 0 {
      LeRoundTrip(x / 256, n - 1);
      assert LeBytes(x, n)[1..] == LeBytes(x / 256, n - 1);
    }
  }

  lemma {:induction false} LeBytesOfNat(b: Bytes)
    ensures LeBytes(LeNat(b), |b|) == b
  {
    if b != [] {
      LeBytesOfNat(b[1..]);
      assert LeNat(b) % 256 == b[0] && LeNat(b) / 256 == LeNat(b[1..]);
      assert b == [b[0]] + b[1..];
    }
  }

  lemma Pow256Values()
    ensures Pow256(1) == 0x100 && Pow256(2) == 0x1_0000
    ensures Pow256(4) == 0x1_0000_0000
    ensures Pow256(8) == 0x1_0000_0000_0000_0000
  {
    assert Pow256(3) == 256 * Pow256(2);
    assert Pow256(5) == 256 * Pow256(4);
    assert Pow256(6) == 256 * Pow256(5);
    assert Pow256(7) == 256 * Pow256(6);
  }

  /** The low byte comes first. */
  lemma LeForms(x: nat)
    ensures LeBytes(x, 2) == [x % 256, x / 0x100 % 256]
    ensures LeBytes(x, 4) == [x % 256, x / 0x100 % 256, x / 0x1_0000 % 256, x / 0x100_0000 % 256]
  {
    var y, z, w := x / 0x100, x / 0x1_0000, x / 0x100_0000;
    assert y / 256 == z && z / 256 == w;
    assert LeBytes(y, 1) == [y % 256] + LeBytes(z, 0);
    assert LeBytes(w, 1) == [w % 256] + LeBytes(w / 256, 0);
    assert LeBytes(z, 2) == [z % 256] + LeBytes(w, 1);
    assert LeBytes(y, 3) == [y % 256] + LeBytes(z, 2);
  }

  /** `s` with the bytes from `at` on replaced by `b`. */
  function Splice(s: Bytes, at: nat, b: Bytes): (r: Bytes)
    requires at + |b| <= |s|
    ensures |r| == |s|
  {
    s[..at] + b + s[at + |b|..]
  }

  /** A range that does not meet the replaced one reads as before. */
  lemma SpliceOutside(s: Bytes, at: nat, b: Bytes, lo: nat, hi: nat)
    requires at + |b| <= |s| && lo <= hi <= |s|
    requires hi <= at || at + |b| <= lo
    ensures Splice(s, at, b)[lo..hi] == s[lo..hi]
  {
  }

  lemma SpliceInside(s: Bytes, at: nat, b: Bytes)
    requires at + |b| <= |s|
    ensures Splice(s, at, b)[at..at + |b|] == b
  {
  }

  /** A slice of a slice. */
  lemma SubSlice(s: Bytes, a: nat, b: nat, lo: nat, hi: nat)
    requires a <= b <= |s| && lo <= hi <= b - a
    ensures s[a..b][lo..hi] == s[a + lo..a + hi]
  {
    var x, y := s[a..b][lo..hi], s[a + lo..a + hi];
    assert |x| == |y|;
    forall i | 0 <= i < |x|
      ensures x[i] == y[i]
    {
      assert x[i] == s[a..b][lo + i];
    }
  }
}
