/** Long division of big integers: normalise so that the top digit of the divisor is at least half
    the base, estimate each quotient digit from the top digits, and correct the estimate. */
module LongDivision {
  import opened Digits
  import opened BigInt

  // ------- normalisation -------

  /** The factor that makes the top digit `dh` of the divisor large. */
  function Lambda(dh: nat): nat
    requires dh > 0
  {
    DivD(dh * 2 + (BASE - 1), 2 * dh)
  }

  lemma LambdaBounds(dh: nat)
    requires 0 < dh && Digit(dh)
    ensures var l := Lambda(dh);
      && 1 <= l && Digit(l) && 2 * (l * dh) >= BASE && l * (dh + 1) <= BASE
  {
    hide DivD, ModD;
    var l := Lambda(dh);
    DivModD(dh * 2 + (BASE - 1), 2 * dh, 0);
    LambdaProducts(l, dh);
    LambdaRange(l, dh, l * dh, ModD(dh * 2 + (BASE - 1), 2 * dh), BASE);
  }

  lemma LambdaProducts(l: nat, dh: nat)
    requires dh > 0
    ensures l * (2 * dh) == 2 * (l * dh) && l * (dh + 1) == l * dh + l
    ensures (l == 0 ==> l * dh == 0) && (l == 1 ==> l * dh == dh) && (l >= 2 ==> l * dh - 2 * dh - l + 2 >= 0)
  {
    if l >= 2 {
      MulAtLeast(dh - 1, 0, l - 2, 0);
      assert (dh - 1) * (l - 2) == l * dh - 2 * dh - l + 2;
    }
  }

  lemma LambdaRange(l: nat, dh: nat, p: nat, r: nat, base: nat)
    requires 0 < dh < base && base % 2 == 0 && 2 * p + r == 2 * dh + base - 1 && r < 2 * dh
    requires (l == 0 ==> p == 0) && (l == 1 ==> p == dh) && (l >= 2 ==> p - 2 * dh - l + 2 >= 0)
    ensures 1 <= l < base && 2 * p >= base && p + l <= base
  {
  }

  /** Scaling by lambda keeps the length of the divisor and makes its top digit at least half the base. */
  lemma {:induction false} Normalised(y: seq<nat>, d: seq<nat>)
    requires y != [] && AllDigits(y) && Normal(y) && AllDigits(d)
    requires Val(d) == Val(y) * Lambda(y[|y| - 1])
    requires |y| <= |d| <= |y| + 1 && (|d| == |y| + 1 ==> d[|y|] != 0)
    ensures |d| == |y| && 2 * d[|y| - 1] >= BASE
  {
    hide Val, Pow, Lambda;
    var n := |y| - 1;
    assert Digit(y[n]);
    LambdaBounds(y[n]);
    TopBounds(y);
    PowStep(n);
    if |d| == |y| + 1 {
      ValAtLeast(d);
      StaysShort(Val(y), y[n], Pow(n), Lambda(y[n]));
    } else {
      TopBounds(d);
      TopIsLarge(Val(y), y[n], Pow(n), Lambda(y[n]), d[n]);
    }
  }

  lemma StaysShort(v: nat, dh: nat, p: nat, l: nat)
    requires v < (dh + 1) * p && l * (dh + 1) <= BASE && l >= 1
    ensures v * l < BASE * p
  {
    MulAtLeast((dh + 1) * p, v + 1, l, l);
    assert (dh + 1) * p * l == l * (dh + 1) * p by { Assoc(l, dh + 1, p); }
    MulAtLeast(BASE, l * (dh + 1), p, p);
    assert (v + 1) * l == v * l + l;
  }

  lemma TopIsLarge(v: nat, dh: nat, p: nat, l: nat, e: nat)
    requires dh * p <= v && 2 * (l * dh) >= BASE && v * l < (e + 1) * p && p > 0
    ensures 2 * e + 2 > BASE
  {
    MulAtLeast(v, dh * p, l, l);
    assert dh * p * l == l * dh * p by { Assoc(l, dh, p); }
    if e + 1 <= l * dh {
      MulAtLeast(l * dh, e + 1, p, p);
    }
  }

  lemma PowStep(n: nat)
    ensures Pow(n + 1) == BASE * Pow(n)
  {
  }

  /** A number lies between its top digit and the next one. */
  lemma {:induction false} TopBounds(s: seq<nat>)
    requires s != [] && AllDigits(s)
    ensures var n := |s| - 1; s[n] * Pow(n) <= Val(s) < (s[n] + 1) * Pow(n)
  {
    hide Val, Pow;
    var n := |s| - 1;
    assert s[..n + 1] == s;
    ValPrefix(s, n);
    ValBound(s[..n]);
    assert (s[n] + 1) * Pow(n) == s[n] * Pow(n) + Pow(n);
  }

  // ------- the quotient digit -------

  function Estimate(hi: nat, lo: nat, dh: nat): nat
    requires dh > 0
  {
    if hi != dh then DivD(hi * BASE + lo, dh) else BASE - 1
  }

  /** The estimate from the top two digits `hi`, `lo` of the window `w` is a digit, never too small,
      and at most two too large. */
  lemma {:induction false} EstimateBounds(w: nat, hi: nat, lo: nat, d: nat, dh: nat, p: nat)
    requires p > 0 && Digit(hi) && Digit(lo) && Digit(dh) && 2 * dh >= BASE
    requires (hi * BASE + lo) * p <= w < (hi * BASE + lo + 1) * p
    requires dh * p <= d < (dh + 1) * p
    requires w < d * BASE
    ensures hi <= dh
    ensures var qd := Estimate(hi, lo, dh); Digit(qd) && w < (qd + 1) * d && qd * d < w + 2 * d
  {
    hide DivD, ModD;
    TopDigit(w, hi, lo, d, dh, p);
    var qd := Estimate(hi, lo, dh);
    if hi != dh {
      EstimateBelow(w, hi, lo, d, dh, p);
    } else {
      EstimateLargest(w, hi, lo, d, dh, p);
    }
  }

  /** The top digit of the window is at most that of the divisor. */
  lemma TopDigit(w: nat, hi: nat, lo: nat, d: nat, dh: nat, p: nat)
    requires p > 0 && (hi * BASE + lo) * p <= w < d * BASE && d < (dh + 1) * p
    ensures hi <= dh
  {
    if hi > dh {
      MulAtLeast(hi, dh + 1, BASE, BASE);
      MulAtLeast(hi * BASE + lo, (dh + 1) * BASE, p, p);
      Assoc(dh + 1, BASE, p);
      Assoc(dh + 1, p, BASE);
      MulAtLeast((dh + 1) * p, d, BASE, BASE);
    }
  }

  lemma EstimateBelow(w: nat, hi: nat, lo: nat, d: nat, dh: nat, p: nat)
    requires p > 0 && hi < dh && Digit(lo) && Digit(dh) && 2 * dh >= BASE
    requires (hi * BASE + lo) * p <= w < (hi * BASE + lo + 1) * p
    requires dh * p <= d < (dh + 1) * p
    ensures var qd := DivD(hi * BASE + lo, dh); Digit(qd) && w < (qd + 1) * d && qd * d < w + 2 * d
  {
    hide DivD, ModD;
    var top := hi * BASE + lo;
    var qd := DivD(top, dh);
    MulAtLeast(dh - 1, hi, BASE, BASE);
    assert (dh - 1) * BASE == dh * BASE - BASE;
    DivModD(top, dh, BASE);
    assert (qd + 1) * dh == qd * dh + dh;
    NotTooSmall(w, top, d, dh, p, qd);
    NotTooLarge(w, top, d, dh, p, qd);
  }

  lemma EstimateLargest(w: nat, hi: nat, lo: nat, d: nat, dh: nat, p: nat)
    requires p > 0 && hi == dh && Digit(dh) && 2 * dh >= BASE && w < d * BASE
    requires (hi * BASE + lo) * p <= w && dh * p <= d < (dh + 1) * p
    ensures w < (BASE - 1 + 1) * d && (BASE - 1) * d < w + 2 * d
  {
    assert (BASE - 1 + 1) * d == d * BASE;
    assert (BASE - 1) * dh == dh * BASE - dh;
    NotTooLarge(w, hi * BASE + lo, d, dh, p, BASE - 1);
  }

  lemma NotTooSmall(w: nat, top: nat, d: nat, dh: nat, p: nat, qd: nat)
    requires p > 0 && w < (top + 1) * p && dh * p <= d && top < (qd + 1) * dh
    ensures w < (qd + 1) * d
  {
    MulAtLeast(d, dh * p, qd + 1, qd + 1);
    assert dh * p * (qd + 1) == (qd + 1) * dh * p by { Assoc(qd + 1, dh, p); }
    MulAtLeast((qd + 1) * dh, top + 1, p, p);
    assert d * (qd + 1) == (qd + 1) * d;
  }

  lemma NotTooLarge(w: nat, top: nat, d: nat, dh: nat, p: nat, qd: nat)
    requires p > 0 && top * p <= w && dh * p <= d < (dh + 1) * p && qd * dh <= top && qd < BASE && BASE <= 2 * dh
    ensures qd * d < w + 2 * d
  {
    assert qd * d <= qd * ((dh + 1) * p) by { MulAtLeast((dh + 1) * p, d, qd, qd); }
    assert qd * ((dh + 1) * p) == qd * dh * p + qd * p by { Assoc(qd, dh + 1, p); assert qd * (dh + 1) == qd * dh + qd; }
    MulAtLeast(top, qd * dh, p, p);
    MulAtLeast(2 * dh, qd + 1, p, p);
    assert 2 * dh * p == 2 * (dh * p);
    assert (qd + 1) * p == qd * p + p;
  }

  // ------- subtracting and adding back a multiple of the divisor -------

  /** The borrow as a machine digit: zero or minus one. */
  predicate IsBorrow(b: nat) {
    b == 0 || b == WORD - 1
  }

  function BorrowOf(b: nat): int {
    if b == 0 then 0 else -1
  }

  lemma WrapBorrow(b: nat, t: int)
    requires IsBorrow(b)
    ensures Wrap(b + t) == Wrap(BorrowOf(b) + t)
  {
    if b != 0 {
      WrapShift(t - 1);
    }
  }

  lemma WrapShift(t: int)
    ensures Wrap(t + WORD) == Wrap(t)
  {
    var q, r := t / WORD, t % WORD;
    assert (q + 1) * WORD == q * WORD + WORD;
    ModUnique(t + WORD, q + 1, r);
  }

  lemma WindowUpdate(pre: seq<nat>, w: seq<nat>, post: seq<nat>, i: nat, v: nat)
    requires i < |w|
    ensures (pre + w + post)[|pre| + i] == w[i]
    ensures (pre + w + post)[|pre| + i := v] == pre + w[i := v] + post
  {
  }

  /** Subtract `c` and a borrow from digit `k`; a negative result wraps around and borrows. */
  method BorrowDigit(rem: Bigint, k: nat, b0: nat, c: nat, ghost pre: seq<nat>, ghost w: seq<nat>, ghost post: seq<nat>)
      returns (b: nat, ghost v: nat)
    requires |pre| <= k < |pre| + |w| && rem.digits == pre + w + post
    requires Digit(w[k - |pre|]) && Digit(c) && IsBorrow(b0)
    modifies rem`digits
    ensures IsBorrow(b) && Digit(v) && rem.digits == pre + w[k - |pre| := v] + post
    ensures v + BorrowOf(b) * BASE == BorrowOf(b0) + w[k - |pre|] - c
  {
    hide Wrap;
    WindowUpdate(pre, w, post, k - |pre|, 0);
    WrapBorrow(b0, rem.digits[k] - c);
    WrapAround(BorrowOf(b0) + rem.digits[k] - c);
    b := Wrap(b0 + (rem.digits[k] - c));
    if b >= BASE {
      v := Wrap(b + BASE);
      rem.digits := rem.digits[k := Wrap(b + BASE)];
      b := WORD - 1;
    } else {
      v := b;
      rem.digits := rem.digits[k := b];
      b := 0;
    }
    WindowUpdate(pre, w, post, k - |pre|, v);
  }

  /** A digit product plus carry as a double digit, split into carry and digit. */
  method MulDigit(q: nat, d: nat, carry: nat) returns (carry': nat, rem: nat)
    requires Digit(q) && Digit(d) && Digit(carry)
    ensures Digit(carry') && Digit(rem) && q * d + carry == carry' * BASE + rem
  {
    hide DivD, ModD;
    var dcarry := q * d + carry;
    ProductFits(q, d, carry, 0);
    DivModD(dcarry, BASE, BASE);
    rem := ModD(dcarry, BASE);
    carry' := DivD(dcarry, BASE);
  }

  /** Subtract `qd` times the divisor from the window of `rem` at `shift`. */
  method MulSub(rem: Bigint, div: Bigint, shift: nat, cd: nat, qd: nat, ghost pre: seq<nat>, ghost w0: seq<nat>, ghost post: seq<nat>)
      returns (borrow: nat, ghost w: seq<nat>)
    requires rem != div && |pre| == shift && |w0| == cd <= |div.digits| && rem.digits == pre + w0 + post
    requires AllDigits(w0) && AllDigits(div.digits[..cd]) && Digit(qd)
    requires qd * Val(div.digits[..cd]) < Pow(cd)
    modifies rem`digits
    ensures |w| == cd && AllDigits(w) && rem.digits == pre + w + post && IsBorrow(borrow)
    ensures Val(w) + BorrowOf(borrow) * Pow(cd) == Val(w0) - qd * Val(div.digits[..cd])
  {
    hide Val, Pow, IsBorrow, BorrowOf;
    var carry: nat := 0;
    borrow := NoBorrowYet();
    w := w0;
    ValEmpty();
    assert w[..0] == [] == w0[..0] == div.digits[..0];
    for i := 0 to cd
      invariant |w| == cd && rem.digits == pre + w + post && IsBorrow(borrow) && Digit(carry)
      invariant AllDigits(w[..i]) && forall k | i <= k < cd :: w[k] == w0[k]
      invariant Val(w[..i]) + (BorrowOf(borrow) - carry) * Pow(i) == Val(w0[..i]) - qd * Val(div.digits[..i])
      invariant carry * Pow(i) <= qd * Val(div.digits[..i])
    {
      assert w[i] == w0[i] && Digit(w0[i]);
      assert div.digits[i] == div.digits[..cd][i] && Digit(div.digits[i]);
      ghost var b0, c0 := BorrowOf(borrow), carry;
      var carryRem;
      carry, carryRem := MulDigit(qd, div.digits[i], carry);
      ghost var v;
      borrow, v := BorrowDigit(rem, shift + i, borrow, carryRem, pre, w, post);
      MulSubStep(w0, w, div.digits, i, qd, b0, BorrowOf(borrow), c0, carry, v, carryRem);
      w := w[i := v];
    }
    CarryGone(carry, Pow(cd), qd * Val(div.digits[..cd]));
    assert w[..cd] == w && w0[..cd] == w0;
  }

  function NoBorrowYet(): (b: nat)
    ensures IsBorrow(b) && BorrowOf(b) == 0
  {
    0
  }

  lemma MulSubStep(w0: seq<nat>, w: seq<nat>, d: seq<nat>, i: nat, q: nat, b: int, b': int, c: nat, c': nat, v: nat, cr: nat)
    requires i < |w0| == |w| && i < |d| && AllDigits(w[..i]) && Digit(v)
    requires q * d[i] + c == c' * BASE + cr && v + b' * BASE == b + w0[i] - cr
    requires Val(w[..i]) + (b - c) * Pow(i) == Val(w0[..i]) - q * Val(d[..i])
    requires c * Pow(i) <= q * Val(d[..i])
    ensures AllDigits(w[i := v][..i + 1])
    ensures Val(w[i := v][..i + 1]) + (b' - c') * Pow(i + 1) == Val(w0[..i + 1]) - q * Val(d[..i + 1])
    ensures c' * Pow(i + 1) <= q * Val(d[..i + 1])
  {
    hide Val, Pow;
    assert (b' - c') * BASE == b' * BASE - c' * BASE;
    AddStep(w0, -((q * Val(d[..i])) as int), w, i, b - c, b' - c', v, -((q * d[i]) as int));
    MulPrefix(d, i, q);
    assert -((q * d[i]) as int) * Pow(i) == -(q * d[i] * Pow(i));
    CarryGrows(d, i, q, c, c', cr);
  }

  lemma CarryGrows(d: seq<nat>, i: nat, q: nat, c: nat, c': nat, cr: nat)
    requires i < |d| && q * d[i] + c == c' * BASE + cr && c * Pow(i) <= q * Val(d[..i])
    ensures c' * Pow(i + 1) <= q * Val(d[..i + 1])
  {
    hide Val, Pow;
    MulPrefix(d, i, q);
    CarryAt(i, cr, c', q * d[i] + c);
    assert (q * d[i] + c) * Pow(i) == q * d[i] * Pow(i) + c * Pow(i);
    MulAtLeast(cr, 0, Pow(i), 0);
  }

  lemma MulPrefix(d: seq<nat>, i: nat, q: int)
    requires i < |d|
    ensures q * Val(d[..i + 1]) == q * Val(d[..i]) + q * d[i] * Pow(i)
  {
    ValPrefix(d, i);
    Assoc(q, d[i], Pow(i));
  }

  lemma CarryGone(carry: nat, p: nat, bound: nat)
    requires carry * p <= bound < p
    ensures carry == 0
  {
    if carry >= 1 {
      MulAtLeast(carry, 1, p, p);
    }
  }

  /** Add digit `d` and a carry to digit `k`, having subtracted the base first; no wrap means a carry. */
  method CarryDigit(rem: Bigint, k: nat, c0: nat, d: nat, ghost pre: seq<nat>, ghost w: seq<nat>, ghost post: seq<nat>)
      returns (c: nat, ghost v: nat)
    requires |pre| <= k < |pre| + |w| && rem.digits == pre + w + post
    requires Digit(w[k - |pre|]) && Digit(d) && c0 <= 1
    modifies rem`digits
    ensures c <= 1 && Digit(v) && rem.digits == pre + w[k - |pre| := v] + post
    ensures v + c * BASE == w[k - |pre|] + d + c0
  {
    hide Wrap;
    WindowUpdate(pre, w, post, k - |pre|, 0);
    WrapAround(c0 + rem.digits[k] - BASE + d);
    c := Wrap(c0 + rem.digits[k] - BASE + d);
    if c >= BASE {
      v := Wrap(c + BASE);
      rem.digits := rem.digits[k := Wrap(c + BASE)];
      c := 0;
    } else {
      v := c;
      rem.digits := rem.digits[k := c];
      c := 1;
    }
    WindowUpdate(pre, w, post, k - |pre|, v);
  }

  /** Add the divisor to the window of `rem` at `shift`. */
  method AddBack(rem: Bigint, div: Bigint, shift: nat, cd: nat, ghost pre: seq<nat>, ghost w0: seq<nat>, ghost post: seq<nat>)
      returns (carry: nat, ghost w: seq<nat>)
    requires rem != div && |pre| == shift && |w0| == cd <= |div.digits| && rem.digits == pre + w0 + post
    requires AllDigits(w0) && AllDigits(div.digits[..cd])
    modifies rem`digits
    ensures |w| == cd && AllDigits(w) && rem.digits == pre + w + post && carry <= 1
    ensures Val(w) + carry * Pow(cd) == Val(w0) + Val(div.digits[..cd])
  {
    hide Val, Pow;
    carry := 0;
    w := w0;
    ValEmpty();
    assert w[..0] == [] == w0[..0] == div.digits[..0];
    for i := 0 to cd
      invariant |w| == cd && rem.digits == pre + w + post && carry <= 1
      invariant AllDigits(w[..i]) && forall k | i <= k < cd :: w[k] == w0[k]
      invariant Val(w[..i]) + carry * Pow(i) == Val(w0[..i]) + Val(div.digits[..i])
    {
      assert w[i] == w0[i] && Digit(w0[i]);
      assert div.digits[i] == div.digits[..cd][i] && Digit(div.digits[i]);
      ghost var c0 := carry;
      ghost var v;
      carry, v := CarryDigit(rem, shift + i, carry, div.digits[i], pre, w, post);
      AddStep(w0, Val(div.digits[..i]), w, i, c0, carry, v, div.digits[i]);
      ValPrefix(div.digits, i);
      w := w[i := v];
    }
    assert w[..cd] == w && w0[..cd] == w0;
  }

  // ------- one quotient digit -------

  lemma {:induction false} EstimateOfWindow(w0: seq<nat>, ds: seq<nat>, cy: nat, dh: nat)
    requires cy > 0 && |w0| == |ds| == cy + 1 && AllDigits(w0) && AllDigits(ds)
    requires ds[cy] == 0 && ds[cy - 1] == dh && 2 * dh >= BASE && Val(w0) < Val(ds) * BASE
    ensures var qd := Estimate(w0[cy], w0[cy - 1], dh);
      && Digit(qd) && Val(w0) < (qd + 1) * Val(ds) && qd * Val(ds) < Val(w0) + 2 * Val(ds)
      && qd * Val(ds) < Pow(cy + 1)
  {
    hide Val, Pow, Estimate;
    var p := Pow(cy - 1);
    var hi, lo := w0[cy], w0[cy - 1];
    assert Digit(hi) && Digit(lo) && Digit(dh);
    TopTwo(w0, cy);
    ValTrim(ds, cy);
    var d := ds[..cy];
    TopBounds(d);
    EstimateBounds(Val(w0), hi, lo, Val(ds), dh, p);
    var qd := Estimate(hi, lo, dh);
    ValBound(d);
    PowStep(cy);
    MulAtLeast(BASE - 1, qd, Val(ds), Val(ds));
    MulAtLeast(Pow(cy), Val(ds), BASE, BASE);
    assert (BASE - 1) * Val(ds) == BASE * Val(ds) - Val(ds);
    if qd == 0 {
      assert qd * Val(ds) == 0;
    }
  }

  lemma {:induction false} TopTwo(w: seq<nat>, cy: nat)
    requires cy > 0 && |w| == cy + 1 && AllDigits(w)
    ensures var t := w[cy] * BASE + w[cy - 1]; t * Pow(cy - 1) <= Val(w) < (t + 1) * Pow(cy - 1)
  {
    hide Val, Pow;
    var p := Pow(cy - 1);
    assert w[..cy + 1] == w;
    ValPrefix(w, cy);
    ValPrefix(w, cy - 1);
    ValBound(w[..cy - 1]);
    PowStep(cy - 1);
    Assoc(w[cy], BASE, p);
    var t := w[cy] * BASE + w[cy - 1];
    assert t * p == w[cy] * BASE * p + w[cy - 1] * p;
    assert (t + 1) * p == t * p + p;
  }

  /** The machine borrow tells the sign of the exact result. */
  lemma SignOfResult(w: seq<nat>, borrow: nat, exact: int)
    requires AllDigits(w) && IsBorrow(borrow) && Val(w) + BorrowOf(borrow) * Pow(|w|) == exact
    ensures borrow != 0 <==> exact < 0
  {
    hide Val, Pow;
    ValBound(w);
  }

  lemma DigitsAreDigits(s: seq<nat>, i: nat)
    requires i < |s| && AllDigits(s)
    ensures s[i] < BASE
  {
    assert Digit(s[i]);
  }

  lemma CorrectionNeeded(w: nat, q: nat, d: nat, k: nat)
    requires w < q * d && q * d < w + k * d
    ensures q >= 1 && k >= 1 && (q - 1) * d < w + (k - 1) * d && (q - 1) * d == q * d - d
  {
    assert (k - 1) * d == k * d - d;
  }

  method AddCarry(borrow: nat, carry: nat) returns (b: nat)
    requires IsBorrow(borrow) && borrow != 0 && carry <= 1
    ensures IsBorrow(b) && BorrowOf(b) == BorrowOf(borrow) + carry
  {
    hide Wrap;
    WrapBorrow(borrow, carry);
    WrapAround(BorrowOf(borrow) + carry);
    b := Wrap(borrow + carry);
    WrapMinusOne();
  }

  lemma WrapMinusOne()
    ensures Wrap(-1) == WORD - 1
  {
    ModUnique(-1, -1, WORD - 1);
  }

  /** The window `w0` of the remainder is divided by the divisor: the estimate is corrected by
      adding the divisor back, at most twice. */
  method QuotientDigit(rem: Bigint, div: Bigint, shift: nat, cy: nat, dh: nat, ghost pre: seq<nat>, ghost w0: seq<nat>, ghost post: seq<nat>)
      returns (qd: nat, ghost w: seq<nat>, ghost tries: nat)
    requires rem != div && |pre| == shift && cy > 0 && |w0| == cy + 1 <= |div.digits| && rem.digits == pre + w0 + post
    requires AllDigits(w0) && AllDigits(div.digits[..cy + 1]) && div.digits[cy] == 0
    requires dh == div.digits[cy - 1] && 2 * dh >= BASE
    requires Val(w0) < Val(div.digits[..cy + 1]) * BASE
    modifies rem`digits
    ensures |w| == cy + 1 && AllDigits(w) && rem.digits == pre + w + post && Digit(qd)
    ensures Val(w0) == qd * Val(div.digits[..cy + 1]) + Val(w) && Val(w) < Val(div.digits[..cy + 1])
    ensures tries <= 2
  {
    hide Val, Pow, IsBorrow, BorrowOf, Estimate, AllDigits;
    ghost var d := Val(div.digits[..cy + 1]);
    ghost var p := Pow(cy + 1);
    WindowUpdate(pre, w0, post, cy, 0);
    WindowUpdate(pre, w0, post, cy - 1, 0);
    EstimateOfWindow(w0, div.digits[..cy + 1], cy, dh);
    DigitsAreDigits(div.digits[..cy + 1], cy - 1);
    qd := Estimate(rem.digits[shift + cy], rem.digits[shift + cy - 1], dh);
    var borrow;
    borrow, w := MulSub(rem, div, shift, cy + 1, qd, pre, w0, post);
    SignOfResult(w, borrow, Val(w0) - qd * d);
    tries := 0;
    while borrow != 0
      invariant |w| == cy + 1 && AllDigits(w) && rem.digits == pre + w + post && IsBorrow(borrow)
      invariant Digit(qd) && Val(w) + BorrowOf(borrow) * p == Val(w0) - qd * d
      invariant 0 <= tries <= 2
      invariant Val(w0) < (qd + 1) * d && qd * d < Val(w0) + (2 - tries) * d
      invariant borrow != 0 <==> Val(w0) < qd * d
      decreases 2 - tries
    {
      CorrectionNeeded(Val(w0), qd, d, 2 - tries);
      qd := qd - 1;
      borrow, w := Correct(rem, div, shift, cy + 1, borrow, pre, w, post);
      SignOfResult(w, borrow, Val(w0) - qd * d);
      tries := tries + 1;
    }
    ZeroBorrow(p);
    assert (qd + 1) * d == qd * d + d;
  }

  lemma ZeroBorrow(p: nat)
    ensures BorrowOf(0) * p == 0
  {
  }

  /** Add the divisor back once; the carry cancels the borrow. */
  method Correct(rem: Bigint, div: Bigint, shift: nat, cd: nat, borrow0: nat, ghost pre: seq<nat>, ghost w0: seq<nat>, ghost post: seq<nat>)
      returns (borrow: nat, ghost w: seq<nat>)
    requires rem != div && |pre| == shift && |w0| == cd <= |div.digits| && rem.digits == pre + w0 + post
    requires AllDigits(w0) && AllDigits(div.digits[..cd]) && IsBorrow(borrow0) && borrow0 != 0
    modifies rem`digits
    ensures |w| == cd && AllDigits(w) && rem.digits == pre + w + post && IsBorrow(borrow)
    ensures Val(w) + BorrowOf(borrow) * Pow(cd) == Val(w0) + BorrowOf(borrow0) * Pow(cd) + Val(div.digits[..cd])
  {
    hide Val, Pow, IsBorrow, BorrowOf;
    var carry;
    carry, w := AddBack(rem, div, shift, cd, pre, w0, post);
    borrow := AddCarry(borrow0, carry);
    assert (BorrowOf(borrow) - carry) * Pow(cd) == BorrowOf(borrow) * Pow(cd) - carry * Pow(cd);
  }

  // ------- the whole division -------

  /** What the division has established when `s` quotient digits are still to come: dividend =
      remainder + divisor * quotient so far, and the remainder is small enough. */
  ghost predicate Divided(r: seq<nat>, vd: nat, s: nat, vz: nat, vx: nat) {
    && AllDigits(r)
    && Val(r) + vd * Pow(s) * vz == vx
    && Val(r) < vd * Pow(s)
  }

  /** Above the window there are only zeros. */
  lemma {:induction false} ZerosAbove(r: seq<nat>, k: nat)
    requires AllDigits(r) && k <= |r| && Val(r) < Pow(k)
    ensures Val(r[k..]) == 0 && Val(r) == Val(r[..k])
  {
    hide Val, Pow;
    ValSplit(r, k);
    ProductBelow(Pow(k), Val(r[k..]));
    ZeroTimes(Pow(k), Val(r[k..]));
  }

  lemma ProductBelow(p: nat, v: nat)
    requires p * v < p
    ensures v == 0
  {
    if v >= 1 {
      MulAtLeast(v, 1, p, p);
    }
  }

  lemma ZeroTimes(p: int, v: int)
    ensures v == 0 ==> p * v == 0
  {
  }

  /** Splitting the remainder at the window. */
  lemma {:induction false} WindowValue(r: seq<nat>, shift: nat, w: seq<nat>, rest: seq<nat>)
    requires shift + |w| <= |r| && r == r[..shift] + w + rest && Val(rest) == 0
    ensures Val(r) == Val(r[..shift]) + Pow(shift) * Val(w)
  {
    hide Val, Pow;
    var t := w + rest;
    assert r == r[..shift] + t;
    ValConcat(r[..shift], t);
    ValConcat(w, rest);
    ZeroTimes(Pow(|w|), Val(rest));
  }

  lemma {:induction false} BeforeDigit(r: seq<nat>, vd: nat, shift: nat, vz: nat, vx: nat, cy: nat)
    requires Divided(r, vd, shift + 1, vz, vx) && shift + cy + 1 <= |r| && vd < Pow(cy)
    ensures var w := r[shift..shift + cy + 1];
      && AllDigits(w) && Val(w) < vd * BASE && Val(r[shift + cy + 1..]) == 0
      && Val(r) == Val(r[..shift]) + Pow(shift) * Val(w)
  {
    hide Val, Pow;
    var k := shift + cy + 1;
    var w, rest := r[shift..k], r[k..];
    PowAdd(cy, shift + 1);
    MulAtLeast(Pow(cy), vd, Pow(shift + 1), Pow(shift + 1));
    ZerosAbove(r, k);
    assert r == r[..shift] + w + rest;
    WindowValue(r, shift, w, rest);
    forall i | 0 <= i < |w| ensures Digit(w[i]) { assert w[i] == r[shift + i]; }
    PowStep(shift);
    var p := Pow(shift);
    assert vd * (BASE * p) == vd * BASE * p by { Assoc(vd, BASE, p); }
    if Val(w) >= vd * BASE {
      MulAtLeast(Val(w), vd * BASE, p, p);
      assert false;
    }
  }

  /** One quotient digit carries the division one position down. */
  lemma {:induction false} AfterDigit(r: seq<nat>, r': seq<nat>, w': seq<nat>, vd: nat, shift: nat, vz: nat, vx: nat, cy: nat, qd: nat)
    requires Divided(r, vd, shift + 1, vz, vx) && shift + cy + 1 <= |r| && vd < Pow(cy) && |w'| == cy + 1
    requires r' == r[..shift] + w' + r[shift + cy + 1..] && AllDigits(w')
    requires Val(r[shift..shift + cy + 1]) == qd * vd + Val(w') && Val(w') < vd
    ensures Divided(r', vd, shift, qd + BASE * vz, vx)
  {
    hide Val, Pow;
    BeforeDigit(r, vd, shift, vz, vx, cy);
    var rest := r[shift + cy + 1..];
    assert r'[..shift] == r[..shift];
    WindowValue(r', shift, w', rest);
    forall i | 0 <= i < |r'| ensures Digit(r'[i]) {
      if shift <= i < shift + cy + 1 {
        assert r'[i] == w'[i - shift];
      } else {
        assert r'[i] == r[i];
      }
    }
    ValBound(r[..shift]);
    PowStep(shift);
    QuotientGrows(Val(r[..shift]), Pow(shift), qd, vd, Val(w'), vz);
  }

  lemma QuotientGrows(v: nat, p: nat, qd: nat, vd: nat, w: nat, vz: nat)
    requires v < p && w < vd
    ensures v + p * (qd * vd + w) + vd * (BASE * p) * vz == v + p * w + vd * p * (qd + BASE * vz)
    ensures v + p * w < vd * p
  {
    assert p * (qd * vd + w) == p * (qd * vd) + p * w;
    assert p * (qd * vd) == vd * p * qd by { Assoc(vd, p, qd); Assoc(p, qd, vd); Assoc(p, vd, qd); }
    assert vd * p * (qd + BASE * vz) == vd * p * qd + vd * p * (BASE * vz);
    assert vd * (BASE * p) * vz == vd * p * (BASE * vz) by {
      Assoc(vd, BASE, p);
      Assoc(vd, p, BASE);
      Assoc(vd * p, BASE, vz);
    }
    MulAtLeast(vd, w + 1, p, p);
    assert (w + 1) * p == p * w + p;
  }

  /** The scaled dividend is below the scaled divisor shifted by all quotient digits. */
  lemma {:induction false} StartDivision(xs: seq<nat>, ys: seq<nat>, r: seq<nat>, l: nat)
    requires 0 < |ys| <= |xs| && AllDigits(xs) && Normal(ys) && AllDigits(r)
    requires l > 0 && Val(r) == Val(xs) * l
    ensures Divided(r, Val(ys) * l, |xs| - |ys| + 1, 0, Val(xs) * l)
  {
    hide Val, Pow;
    var s := |xs| - |ys| + 1;
    ValBound(xs);
    ValAtLeast(ys);
    PowAdd(|ys| - 1, s);
    var vx, vy, p, q := Val(xs), Val(ys), Pow(|ys| - 1), Pow(s);
    MulAtLeast(vy, p, q, q);
    MulAtLeast(vy * q, vx + 1, l, l);
    assert (vx + 1) * l == vx * l + l;
    assert vy * l * q == vy * q * l by { Assoc(vy, l, q); Assoc(vy, q, l); }
    ZeroTimes(vy * l * q, 0);
  }

  /** Undoing the scaling of the remainder is exact. */
  lemma Denormalise(vx: nat, vy: nat, vz: nat, l: nat, r: nat, m: nat, mod: nat)
    requires l > 0 && r + vy * l * vz == vx * l && r < vy * l && r == m * l + mod && mod < l
    ensures vx == vz * vy + m && m < vy && mod == 0
  {
    var t := vx - vy * vz;
    assert vy * l * vz == vy * vz * l by { Assoc(vy, l, vz); Assoc(vy, vz, l); }
    assert t * l == m * l + mod;
    assert (t - m) * l == mod;
    if t - m >= 1 {
      MulAtLeast(t - m, 1, l, l);
    }
    if t - m <= -1 {
      MulAtLeast(m - t, 1, l, l);
    }
    if m >= vy {
      MulAtLeast(m, vy, l, l);
    }
  }

  /** Scale both operands by lambda and give them one more digit. */
  method Normalise(x: Bigint, y: Bigint) returns (rem: Bigint, div: Bigint, lambda: nat)
    requires x.Ok() && y.Ok() && x != y && Normal(y.digits[..y.count]) && 0 < y.count <= x.count
    modifies x, y
    ensures rem != div && rem.Ok() && div.Ok() && rem.rc == 0 && div.rc == 0
    ensures fresh(rem) || (rem == x && old(x.rc) == 0)
    ensures fresh(div) || (div == y && old(y.rc) == 0)
    ensures rem.count == old(x.count) + 1 && div.count == old(y.count) + 1
    ensures rem.Abs() == old(x.Abs()) * lambda && div.Abs() == old(y.Abs()) * lambda && div.Abs() < Pow(old(y.count))
    ensures div.digits[old(y.count)] == 0 && 2 * div.digits[old(y.count) - 1] >= BASE
    ensures 0 < lambda && Digit(lambda)
    ensures old(x.rc) > 0 ==> x.GaveUp(1)
    ensures old(y.rc) > 0 ==> y.GaveUp(1)
  {
    hide Val, Pow, Lambda, DivD;
    var cx, cy := x.count, y.count;
    ghost var ys := y.digits[..cy];
    var divisorHi := y.LastDigit();
    assert divisorHi == ys[cy - 1] && Digit(divisorHi);
    LambdaBounds(divisorHi);
    lambda := Lambda(divisorHi);
    rem := ScaledDividend(x, cx, lambda);
    div := MulSmall(y, lambda);
    ghost var ds := div.digits[..div.count];
    assert div.count == cy + 1 ==> ds[cy] == div.digits[cy];
    Normalised(ys, ds);
    ValBound(ds);
    assert ds[cy - 1] == div.digits[cy - 1];
    div := Push(div, 0);
    assert div.digits[..cy + 1] == ds + [0];
    assert (ds + [0])[..cy] == ds;
    ValTrim(ds + [0], cy);
    assert div.digits[cy - 1] == (ds + [0])[cy - 1] && div.digits[cy] == (ds + [0])[cy];
  }

  method ScaledDividend(x: Bigint, cx: nat, lambda: nat) returns (rem: Bigint)
    requires x.Ok() && cx == x.count && Digit(lambda)
    modifies x
    ensures rem.Ok() && rem.rc == 0 && rem.count == cx + 1 && rem.Abs() == old(x.Abs()) * lambda
    ensures fresh(rem) || (rem == x && old(x.rc) == 0)
    ensures old(x.rc) > 0 ==> x.GaveUp(1)
  {
    hide Val, Pow;
    rem := MulSmall(x, lambda);
    if rem.count <= cx {
      ghost var rs := rem.digits[..cx];
      rem := Push(rem, 0);
      assert rem.digits[..cx + 1] == rs + [0];
      assert (rs + [0])[..cx] == rs;
      ValTrim(rs + [0], cx);
    }
  }

  /** The quotient digits, from the top; afterwards `rem` holds the scaled remainder. */
  method DivideLoop(rem: Bigint, div: Bigint, z: Bigint, cx: nat, cy: nat, ghost vx: nat)
    requires rem != div && rem != z && div != z && 0 < cy <= cx
    requires cx + 1 <= |rem.digits| && cy + 1 <= |div.digits| && cx - cy + 1 <= |z.digits|
    requires AllDigits(div.digits[..cy + 1]) && div.digits[cy] == 0 && 2 * div.digits[cy - 1] >= BASE
    requires Val(div.digits[..cy + 1]) < Pow(cy)
    requires Divided(rem.digits[..cx + 1], Val(div.digits[..cy + 1]), cx - cy + 1, 0, vx)
    modifies rem`digits, z`digits
    ensures |rem.digits| == |old(rem.digits)| && |z.digits| == |old(z.digits)| && AllDigits(z.digits[..cx - cy + 1])
    ensures Divided(rem.digits[..cx + 1], Val(div.digits[..cy + 1]), 0, Val(z.digits[..cx - cy + 1]), vx)
  {
    hide Val, Pow, Divided, AllDigits;
    var divisorHi := div.digits[cy - 1];
    ghost var cz, vd := cx - cy + 1, Val(div.digits[..cy + 1]);
    var shift := cx - cy + 1;
    ValEmpty();
    assert z.digits[cz..cz] == [];
    NoDigits();
    while shift > 0
      invariant 0 <= shift <= cz && |rem.digits| == |old(rem.digits)| && |z.digits| == |old(z.digits)|
      invariant AllDigits(z.digits[shift..cz])
      invariant Divided(rem.digits[..cx + 1], vd, shift, Val(z.digits[shift..cz]), vx)
    {
      shift := shift - 1;
      ghost var all, r, vz := rem.digits, rem.digits[..cx + 1], Val(z.digits[shift + 1..cz]);
      ghost var k := shift + cy + 1;
      ghost var pre, w0, post := all[..shift], all[shift..k], all[k..];
      SplitWindow(all, shift, k, cx + 1);
      BeforeDigit(r, vd, shift, vz, vx, cy);
      var qd;
      ghost var w, tries;
      qd, w, tries := QuotientDigit(rem, div, shift, cy, divisorHi, pre, w0, post);
      ghost var r' := rem.digits[..cx + 1];
      assert r' == r[..shift] + w + r[k..];
      AfterDigit(r, r', w, vd, shift, vz, vx, cy, qd);
      ghost var tail := z.digits[shift + 1..cz];
      z.digits := z.digits[shift := qd];
      assert z.digits[shift..cz] == [qd] + tail;
      ValCons(qd, tail);
      ConsDigits(qd, tail);
    }
    assert z.digits[0..cz] == z.digits[..cz];
  }

  lemma SplitWindow(s: seq<nat>, lo: nat, hi: nat, n: nat)
    requires lo <= hi <= n <= |s|
    ensures s == s[..lo] + s[lo..hi] + s[hi..] && s[..n][lo..hi] == s[lo..hi]
    ensures s[..n] == s[..n][..lo] + s[lo..hi] + s[..n][hi..]
  {
  }

  lemma NoDigits()
    ensures AllDigits([])
  {
  }

  lemma ConsDigits(d: nat, s: seq<nat>)
    requires Digit(d) && AllDigits(s)
    ensures AllDigits([d] + s)
  {
  }

  lemma FinalDivision(r: seq<nat>, vx: nat, vy: nat, vz: nat, l: nat, m: nat, mod: nat)
    requires Divided(r, vy * l, 0, vz, vx * l) && l > 0 && Val(r) == m * l + mod && mod < l
    ensures vx == vz * vy + m && m < vy
  {
    hide Val;
    Denormalise(vx, vy, vz, l, Val(r), m, mod);
  }

  /** |x| / |y| and |x| mod |y|, for normal numbers with |y| > 0 and x at least as long as y. */
  method CdivCmod(x: Bigint, y: Bigint) returns (z: Bigint, m: Bigint)
    requires x.Ok() && y.Ok() && x != y && Normal(y.digits[..y.count]) && 0 < y.count <= x.count
    modifies x, y
    ensures z != m && z.Ok() && z.rc == 0 && fresh(z) && Normal(z.digits[..z.count])
    ensures m.Ok() && m.rc == 0 && Normal(m.digits[..m.count])
    ensures fresh(m) || (m == x && old(x.rc) == 0)
    ensures z.isNeg == (old(x.isNeg) != old(y.isNeg))
    ensures old(x.Abs()) == z.Abs() * old(y.Abs()) + m.Abs() && m.Abs() < old(y.Abs())
    ensures old(x.rc) > 0 ==> x.GaveUp(1)
    ensures old(y.rc) > 0 ==> y.GaveUp(1)
  {
    hide Val, Pow, Divided, Normal, AllDigits, Digit;
    var cx, cy := x.count, y.count;
    ghost var xs, ys := x.digits[..cx], y.digits[..cy];
    z := Alloc(cx - cy + 1, x.isNeg != y.isNeg);
    z.digits := seq(|z.digits|, i => 0);
    var rem, div, lambda := Normalise(x, y);
    StartDivision(xs, ys, rem.digits[..cx + 1], lambda);
    DivideLoop(rem, div, z, cx, cy, Val(xs) * lambda);
    Drop(div);
    ghost var r := rem.digits[..cx + 1];
    DividedDigits(r, Val(ys) * lambda, 0, Val(z.digits[..cx - cy + 1]), Val(xs) * lambda);
    var mod;
    m, mod := CdivCmodSmall(rem, lambda);
    FinalDivision(r, Val(xs), Val(ys), Val(z.digits[..cx - cy + 1]), lambda, m.Abs(), mod);
    Trim(z);
  }

  lemma DividedDigits(r: seq<nat>, vd: nat, s: nat, vz: nat, vx: nat)
    requires Divided(r, vd, s, vz, vx)
    ensures AllDigits(r)
  {
  }
}
