/** Lines and decimal integers of the Redis serialization protocol. */
module RespLines {
  import opened Machine

  const CR: u8 := 13
  const LF: u8 := 10
  const CRLF: Bytes := [13, 10]
  const I64_MAX: nat := 0x7FFF_FFFF_FFFF_FFFF
  const I64_MIN: int := -0x8000_0000_0000_0000

  predicate CrlfAt(s: Bytes, p: nat) {
    p + 1 < |s| && s[p] == CR && s[p + 1] == LF
  }

  ghost predicate NoCrlf(s: Bytes) {
    forall p: nat :: !CrlfAt(s, p)
  }

  function FindCrlfFrom(s: Bytes, i: nat): (r: Option<nat>)
    ensures r.Some? ==> i <= r.value && CrlfAt(s, r.value) && forall p: nat :: i <= p < r.value ==> !CrlfAt(s, p)
    ensures r.None? ==> forall p: nat :: i <= p ==> !CrlfAt(s, p)
    decreases |s| - i
  {
    if i + 1 >= |s| then None
    else if CrlfAt(s, i) then Some(i)
    else FindCrlfFrom(s, i + 1)
  }

  /** Position of the first CRLF. */
  function FindCrlf(s: Bytes): (r: Option<nat>)
    ensures r.Some? ==> CrlfAt(s, r.value) && forall p: nat :: p < r.value ==> !CrlfAt(s, p)
    ensures r.None? ==> NoCrlf(s)
  {
    FindCrlfFrom(s, 0)
  }

  /** `find_crlf`: the scan of the original. */
  method FindCrlfScan(s: Bytes) returns (r: Option<nat>)
    ensures r == FindCrlf(s)
  {
    var i := 0;
    while i + 1 < |s|
      invariant 0 <= i
      invariant FindCrlf(s) == FindCrlfFrom(s, i)
      decreases |s| - i
    {
      if s[i] == CR && s[i + 1] == LF {
        return Some(i);
      }
      i := i + 1;
    }
    return None;
  }

  /** A line once found stays found. */
  lemma FindCrlfStable(s: Bytes, more: Bytes)
    requires FindCrlf(s).Some?
    ensures FindCrlf(s + more) == FindCrlf(s)
  {
    var p := FindCrlf(s).value;
    assert CrlfAt(s + more, p);
    assert forall q: nat :: q < p ==> (CrlfAt(s + more, q) <==> CrlfAt(s, q));
  }

  /** A printed line is found where it ends exactly when it holds no CRLF itself. */
  lemma FindCrlfLine(line: Bytes, rest: Bytes)
    ensures FindCrlf(line + CRLF + rest).Some?
    ensures FindCrlf(line + CRLF + rest) == Some(|line|) <==> NoCrlf(line)
    ensures FindCrlf(line + CRLF + rest).value <= |line|
  {
    var s := line + CRLF + rest;
    assert CrlfAt(s, |line|);
    forall p: nat | p < |line|
      ensures CrlfAt(s, p) <==> CrlfAt(line, p)
    {
      assert p + 1 == |line| ==> s[p + 1] == CR;
    }
  }

  // ---- Decimal integers ----

  predicate IsDigit(b: u8) {
    48 <= b <= 57
  }

  predicate AllDigits(s: Bytes) {
    forall i :: 0 <= i < |s| ==> IsDigit(s[i])
  }

  function DigitsValue(s: Bytes): nat
    requires AllDigits(s)
  {
    if s == [] then 0 else 10 * DigitsValue(s[..|s| - 1]) + (s[|s| - 1] - 48)
  }

  /** `str::parse::<i64>`: an optional sign, at least one digit, nothing else, in range. */
  function ParseI64(s: Bytes): Option<i64> {
    var negative := s != [] && s[0] == 45;
    var digits := if s != [] && (s[0] == 45 || s[0] == 43) then s[1..] else s;
    if digits == [] || !AllDigits(digits) then None
    else
      var v: int := DigitsValue(digits);
      var n := if negative then -v else v;
      if I64_MIN <= n <= I64_MAX then Some(n) else None
  }

  function Decimal(n: nat): (s: Bytes)
    ensures s != [] && AllDigits(s)
  {
    if n < 10 then [48 + n] else Decimal(n / 10) + [48 + n % 10]
  }

  lemma {:induction false} DecimalValue(n: nat)
    ensures DigitsValue(Decimal(n)) == n
  {
    if n < 10 {
      assert Decimal(n)[..0] == [];
    } else {
      DecimalValue(n / 10);
      assert Decimal(n)[..|Decimal(n)| - 1] == Decimal(n / 10);
    }
  }

  /** Two's-complement negation of the original: the least integer is its own negative. */
  function WrappingNeg(n: i64): i64 {
    if n == I64_MIN then I64_MIN else -n
  }

  /** What `write_int` prints. */
  function Printed(n: i64): Bytes {
    if n >= 0 then Decimal(n)
    else if WrappingNeg(n) > 0 then [45] + Decimal(WrappingNeg(n))
    else [45]
  }

  lemma ParseDecimal(n: nat)
    requires n <= I64_MAX
    ensures ParseI64(Decimal(n)) == Some(n)
  {
    DecimalValue(n);
    assert IsDigit(Decimal(n)[0]);
  }

  /** Printing and parsing an integer undo each other, except for the least one. */
  lemma ParsePrinted(n: i64)
    ensures ParseI64(Printed(n)) == if n == I64_MIN then None else Some(n)
  {
    if n >= 0 {
      ParseDecimal(n);
    } else if n != I64_MIN {
      DecimalValue(-n);
      assert Printed(n)[1..] == Decimal(-n);
    } else {
      assert Printed(n)[1..] == [];
    }
  }

  lemma PrintedHasNoCrlf(n: i64)
    ensures NoCrlf(Printed(n))
  {
    forall p: nat | p < |Printed(n)|
      ensures Printed(n)[p] != CR
    {
    }
  }

  // ---- The digit loops ----

  function Pow10(k: nat): nat {
    if k == 0 then 1 else 10 * Pow10(k - 1)
  }

  function Reversed(s: Bytes): (r: Bytes)
    ensures |r| == |s|
  {
    if s == [] then [] else [s[|s| - 1]] + Reversed(s[..|s| - 1])
  }

  lemma TwentyDigits()
    ensures Pow10(20) == 100_000_000_000_000_000_000
  {
    assert Pow10(5) == 100_000;
    assert Pow10(10) == 10_000_000_000;
    assert Pow10(15) == 1_000_000_000_000_000;
  }

  /** The digits of a positive number, least significant first, in a twenty-byte buffer. */
  method FillDigits(value: u64, temp: array<u8>) returns (i: nat)
    requires temp.Length == 20 && value > 0
    modifies temp
    ensures i <= 20 && Reversed(temp[..i]) == Decimal(value)
  {
    TwentyDigits();
    var n := value;
    i := 0;
    while n > 0
      invariant 0 <= i <= 20 && 0 <= n < Pow10(20 - i)
      invariant n > 0 ==> Decimal(value) == Decimal(n) + Reversed(temp[..i])
      invariant n == 0 ==> Decimal(value) == Reversed(temp[..i])
      decreases n
    {
      assert Pow10(0) == 1;
      assert Pow10(20 - i) == 10 * Pow10(20 - i - 1);
      ghost var before := temp[..i];
      temp[i] := 48 + n % 10;
      assert temp[..i + 1][..i] == before;
      n := n / 10;
      i := i + 1;
    }
  }

  /** Push a filled digit buffer in reverse. */
  method PushDigits(buf: Bytes, temp: array<u8>, count: nat) returns (out: Bytes)
    requires count <= temp.Length
    ensures out == buf + Reversed(temp[..count])
  {
    var i := count;
    out := buf;
    while i > 0
      invariant 0 <= i <= count
      invariant out + Reversed(temp[..i]) == buf + Reversed(temp[..count])
    {
      i := i - 1;
      assert temp[..i + 1][..i] == temp[..i];
      out := out + [temp[i]];
    }
  }

  /** `write_usize`. */
  method WriteUsize(buf: Bytes, n: u64) returns (out: Bytes)
    ensures out == buf + Decimal(n)
  {
    if n == 0 {
      return buf + [48];
    }
    out := PushPositive(buf, n);
  }

  /** `write_int`. */
  method WriteInt(buf: Bytes, value: i64) returns (out: Bytes)
    ensures out == buf + Printed(value)
  {
    if value == 0 {
      return buf + [48];
    }
    var n := value;
    out := buf;
    if n < 0 {
      out := out + [45];
      n := WrappingNeg(n);
    }
    ghost var sign := if value < 0 then [45] else [];
    assert out == buf + sign;
    if n > 0 {
      out := PushPositive(out, n);
      assert buf + sign + Decimal(n) == buf + (sign + Decimal(n));
    }
  }

  method PushPositive(buf: Bytes, n: u64) returns (out: Bytes)
    requires n > 0
    ensures out == buf + Decimal(n)
  {
    var temp := new u8[20](_ => 0);
    var i := FillDigits(n, temp);
    out := PushDigits(buf, temp, i);
  }
}
