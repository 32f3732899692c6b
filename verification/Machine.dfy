/** Fixed-width integers of the original program, as ranges of unbounded integers. */
module Machine {
  type u8 = x: int | 0 <= x < 0x100
  type u16 = x: int | 0 <= x < 0x1_0000
  type u32 = x: int | 0 <= x < 0x1_0000_0000
  type u64 = x: int | 0 <= x < 0x1_0000_0000_0000_0000
  type i64 = x: int | -0x8000_0000_0000_0000 <= x < 0x8000_0000_0000_0000

  type Bytes = seq<u8>

  datatype Option<+T> = None | Some(value: T)

  predicate IsPowerOfTwo(n: nat) {
    n == 1 || (n > 1 && n % 2 == 0 && IsPowerOfTwo(n / 2))
  }

  /** The least power of two at or above `n`. */
  function NextPowerOfTwo(n: nat): (r: nat)
    ensures IsPowerOfTwo(r) && n <= r
    ensures n >= 1 ==> r < 2 * n
    decreases n
  {
    if n <= 1 then 1 else 2 * NextPowerOfTwo((n + 1) / 2)
  }

  lemma {:induction false} NextPowerOfTwoFixed(n: nat)
    requires IsPowerOfTwo(n)
    ensures NextPowerOfTwo(n) == n
  {
    if n > 1 {
      assert (n + 1) / 2 == n / 2;
      NextPowerOfTwoFixed(n / 2);
    }
  }

  lemma {:induction false} PowerOfTwoDoubled(n: nat)
    requires IsPowerOfTwo(n)
    ensures IsPowerOfTwo(2 * n)
    ensures n > 1 ==> IsPowerOfTwo(n / 2)
  {
    assert (2 * n) / 2 == n;
  }

  lemma {:induction false} PowerOfTwoByEight(n: nat)
    requires IsPowerOfTwo(n) && n >= 8
    ensures n % 8 == 0
  {
    var a := n / 2;
    var b := a / 2;
    assert IsPowerOfTwo(a) && n == 2 * a;
    assert IsPowerOfTwo(b) && a == 2 * b;
    assert b % 2 == 0;
  }

  /** A list without repeats has as many elements as places. */
  lemma {:induction false} DistinctSize<T>(s: seq<T>)
    requires forall i, j :: 0 <= i < j < |s| ==> s[i] != s[j]
    ensures |set v | v in s| == |s|
    decreases |s|
  {
    if s != [] {
      var n := |s| - 1;
      DistinctSize(s[..n]);
      assert (set v | v in s) == (set v | v in s[..n]) + {s[n]};
    }
  }

  lemma SubsetSize<T>(a: set<T>, b: set<T>)
    requires a <= b
    ensures |a| <= |b|
  {
    assert b == a + (b - a);
  }
}
