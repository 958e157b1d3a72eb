/** Natural numbers as digit sequences, least significant digit first. The base is symbolic:
    both digit sizes of the runtime are `Valid`, and nothing else is used about it. */
module Digits {

  /** A digit configuration: base, its decimal logarithm, the number of machine digits, and the
      size of a digit in bytes. */
  datatype Platform = Platform(base: nat, logBase: nat, word: nat, bytes: nat)

  function Ten(n: nat): (r: nat)
    ensures r >= 1
  {
    if n == 0 then 1 else 10 * Ten(n - 1)
  }

  predicate Valid(p: Platform) {
    && p.logBase >= 2
    && p.base == Ten(p.logBase)
    && p.base >= 100
    && p.base % 4 == 0
    && 2 * p.base + 1 < p.word
    && (p.bytes == 4 || p.bytes == 8)
  }

  lemma BothDigitSizesAreValid()
    ensures Valid(Platform(1_000_000_000, 9, 0x1_0000_0000, 4))
    ensures Valid(Platform(1_000_000_000_000_000_000, 18, 0x1_0000_0000_0000_0000, 8))
  {
    assert Ten(3) == 1000;
    assert Ten(6) == 1_000_000;
    assert Ten(9) == 1_000_000_000;
    assert Ten(12) == 1_000_000_000_000;
    assert Ten(15) == 1_000_000_000_000_000;
    assert Ten(18) == 1_000_000_000_000_000_000;
  }

  type ValidPlatform = p: Platform | Valid(p)
    witness (BothDigitSizesAreValid(); Platform(1_000_000_000, 9, 0x1_0000_0000, 4))

  /** The platform of the build; nothing but its validity is known. */
  const PLATFORM: ValidPlatform

  const BASE: nat := PLATFORM.base
  const LOG_BASE: nat := PLATFORM.logBase
  /** Machine digits are computed modulo WORD. */
  const WORD: nat := PLATFORM.word

  // ------- powers and values -------

  function Pow(n: nat): (r: nat)
    ensures r >= 1
  {
    if n == 0 then 1 else
      MulAtLeast(BASE, 1, Pow(n - 1), 1);
      BASE * Pow(n - 1)
  }

  lemma MulAtLeast(a: int, b: nat, c: int, d: nat)
    requires a >= b && c >= d
    ensures a * c >= b * d
  {
    calc {
      a * c - b * d;
      (a - b) * c + b * (c - d);
    }
  }

  lemma {:induction false} PowAdd(m: nat, n: nat)
    ensures Pow(m + n) == Pow(m) * Pow(n)
  {
    if m != 0 {
      PowAdd(m - 1, n);
      Assoc(BASE, Pow(m - 1), Pow(n));
    }
  }

  lemma Assoc(a: int, b: int, c: int)
    ensures a * (b * c) == a * b * c
  {
  }

  /** The value of a digit sequence. */
  function Val(s: seq<nat>): nat {
    if s == [] then 0 else
      var n := |s| - 1;
      Val(s[..n]) + s[n] * Pow(n)
  }

  predicate Digit(d: nat) {
    d < BASE
  }

  predicate AllDigits(s: seq<nat>) {
    forall i | 0 <= i < |s| :: Digit(s[i])
  }

  /** No leading zeros. */
  predicate Normal(s: seq<nat>) {
    s == [] || s[|s| - 1] != 0
  }

  /** As stored: no leading zeros, but zero may be written as one digit. */
  predicate Proper(s: seq<nat>) {
    |s| <= 1 || s[|s| - 1] != 0
  }

  /** The longer one has no leading zeros, so that the lengths decide a comparison. */
  predicate Comparable(s: seq<nat>, t: seq<nat>) {
    (|s| < |t| ==> Normal(t)) && (|t| < |s| ==> Normal(s))
  }

  lemma ValEmpty()
    ensures Val([]) == 0 && Pow(0) == 1
  {
  }

  lemma {:induction false} ValPrefix(s: seq<nat>, i: nat)
    requires i < |s|
    ensures Val(s[..i + 1]) == Val(s[..i]) + s[i] * Pow(i)
  {
    assert s[..i + 1][..i] == s[..i];
  }

  lemma {:induction false} ValConcat(s: seq<nat>, t: seq<nat>)
    ensures Val(s + t) == Val(s) + Pow(|s|) * Val(t)
  {
    if t == [] {
      assert s + t == s;
    } else {
      var n := |t| - 1;
      ValConcat(s, t[..n]);
      assert (s + t)[..|s| + n] == s + t[..n];
      assert (s + t)[|s| + n] == t[n];
      PowAdd(|s|, n);
      Scale(Pow(|s|), Val(t[..n]), t[n], Pow(n));
    }
  }

  lemma Scale(p: int, v: int, d: int, q: int)
    ensures p * (v + d * q) == p * v + d * (p * q)
  {
    assert p * (v + d * q) == p * v + p * (d * q);
    Assoc(p, d, q);
    Assoc(d, p, q);
  }

  lemma {:induction false} ValSplit(s: seq<nat>, i: nat)
    requires i <= |s|
    ensures Val(s) == Val(s[..i]) + Pow(i) * Val(s[i..])
  {
    assert s == s[..i] + s[i..];
    ValConcat(s[..i], s[i..]);
  }

  lemma {:induction false} ValZeros(s: seq<nat>)
    requires forall i | 0 <= i < |s| :: s[i] == 0
    ensures Val(s) == 0
  {
    if s != [] {
      ValZeros(s[..|s| - 1]);
    }
  }

  lemma {:induction false} ValBound(s: seq<nat>)
    requires AllDigits(s)
    ensures Val(s) < Pow(|s|)
  {
    if s != [] {
      var n := |s| - 1;
      ValBound(s[..n]);
      assert Digit(s[n]);
      DigitBelow(s[n], n);
    }
  }

  lemma DigitBelow(d: nat, n: nat)
    requires Digit(d)
    ensures d * Pow(n) + Pow(n) <= Pow(n + 1)
  {
    var p := Pow(n);
    MulAtLeast(BASE, d + 1, p, p);
    assert (d + 1) * p == d * p + p;
  }

  /** The number a normal sequence denotes has exactly that many digits. */
  lemma {:induction false} ValAtLeast(s: seq<nat>)
    requires s != [] && Normal(s)
    ensures Val(s) >= Pow(|s| - 1)
  {
    var n := |s| - 1;
    MulAtLeast(s[n], 1, Pow(n), Pow(n));
  }

  lemma {:induction false} PowMonotone(m: nat, n: nat)
    requires m <= n
    ensures Pow(m) <= Pow(n)
  {
    if m < n {
      PowMonotone(m, n - 1);
      MulAtLeast(BASE, 1, Pow(n - 1), Pow(n - 1));
    }
  }

  lemma {:induction false} LongerIsLarger(s: seq<nat>, t: seq<nat>)
    requires AllDigits(s) && Normal(t) && |s| < |t|
    ensures Val(s) < Val(t)
  {
    ValBound(s);
    ValAtLeast(t);
    PowMonotone(|s|, |t| - 1);
  }

  /** A number that is not smaller, in the same number of digits, has no leading zeros either. */
  lemma {:induction false} NotSmaller(s: seq<nat>, t: seq<nat>)
    requires AllDigits(t) && |s| == |t| && Normal(s) && Val(t) >= Val(s)
    ensures Normal(t)
  {
    if t != [] && t[|t| - 1] == 0 {
      LongerIsLarger(t[..|t| - 1], s);
      ValTrim(t, |t| - 1);
    }
  }

  /** Sequences that agree above `i` are ordered by digit `i`. */
  lemma {:induction false} TopDigitDecides(s: seq<nat>, t: seq<nat>, i: nat)
    requires AllDigits(s) && AllDigits(t) && |s| == |t| && i < |s|
    requires s[i + 1..] == t[i + 1..] && s[i] < t[i]
    ensures Val(s) < Val(t)
  {
    ValSplit(s, i + 1);
    ValSplit(t, i + 1);
    ValPrefix(s, i);
    ValPrefix(t, i);
    ValBound(s[..i]);
    MulAtLeast(t[i], s[i] + 1, Pow(i), Pow(i));
    assert (s[i] + 1) * Pow(i) == s[i] * Pow(i) + Pow(i);
  }

  /** Dropping leading zeros does not change the value. */
  lemma {:induction false} ValTrim(s: seq<nat>, n: nat)
    requires n <= |s| && forall i | n <= i < |s| :: s[i] == 0
    ensures Val(s) == Val(s[..n])
  {
    ValSplit(s, n);
    ValZeros(s[n..]);
  }

  // ------- one digit of an operation -------

  /** A carry equation between digits, at position `i`. */
  lemma CarryAt(i: nat, z: int, carry': int, sum: int)
    requires z + carry' * BASE == sum
    ensures z * Pow(i) + carry' * Pow(i + 1) == sum * Pow(i)
  {
    calc {
      z * Pow(i) + carry' * Pow(i + 1);
      { Assoc(carry', BASE, Pow(i)); }
      z * Pow(i) + carry' * BASE * Pow(i);
      (z + carry' * BASE) * Pow(i);
    }
  }

  /** Changing one position changes the value by that much. */
  lemma {:induction false} ValUpdate(s: seq<nat>, i: nat, v: nat)
    requires i < |s|
    ensures Val(s[i := v]) == Val(s) + (v - s[i]) * Pow(i)
  {
    var t := s[i := v];
    ValSplit(s, i + 1);
    ValSplit(t, i + 1);
    ValPrefix(s, i);
    ValPrefix(t, i);
    assert t[i + 1..] == s[i + 1..] && t[..i] == s[..i];
    assert (v - s[i]) * Pow(i) == v * Pow(i) - s[i] * Pow(i);
  }

  lemma {:induction false} ValCons(d: nat, s: seq<nat>)
    ensures Val([d] + s) == d + BASE * Val(s)
  {
    ValConcat([d], s);
    assert [d][..0] == [];
    assert Pow(1) == BASE * Pow(0) == BASE;
    assert Val([d]) == Val([]) + d * Pow(0);
  }

  /** Machine division of a double digit. */
  function DivD(d: nat, b: nat): nat
    requires b > 0
  {
    d / b
  }

  function ModD(d: nat, b: nat): nat
    requires b > 0
  {
    d % b
  }

  lemma DivModD(d: nat, b: nat, k: nat)
    requires b > 0
    ensures d == DivD(d, b) * b + ModD(d, b) && ModD(d, b) < b
    ensures d < b * k ==> DivD(d, b) < k
  {
    var q := d / b;
    if q >= k {
      MulAtLeast(q, k, b, b);
    }
  }

  /** A product of digits plus two further digits fits a double digit. */
  lemma ProductFits(x: nat, y: nat, a: nat, b: nat)
    requires Digit(x) && Digit(y) && Digit(a) && Digit(b)
    ensures x * y + a + b < BASE * BASE
  {
    MulAtLeast(BASE - 1, x, BASE - 1, y);
    assert (BASE - 1) * (BASE - 1) == BASE * BASE - 2 * BASE + 1;
  }
}
