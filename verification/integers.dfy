/** Arbitrary precision integers: small ones in a tagged word, others as a big integer; each operation
    has a fast path on words and a generic one. */
module Integers {
  import opened Digits
  import opened BigInt
  import LongDivision
  import Karatsuba
  import opened Tagged

  /** A tagged small number, or the (aligned) address of a big integer. */
  datatype Integer = Small(w: int) | Big(addr: int, x: Bigint)

  function Abs(n: int): nat {
    if n < 0 then -n else n
  }

  function Word(i: Integer): int {
    if i.Small? then i.w else i.addr
  }

  ghost function Denoted(i: Integer): int
    reads if i.Big? then {i.x} else {}
    requires i.Big? ==> i.x.count <= |i.x.digits|
  {
    if i.Small? then Unboxed(i.w) else i.x.Value()
  }

  ghost function Objects(i: Integer): set<Bigint> {
    if i.Small? then {} else {i.x}
  }

  /** What is kept as a big integer: nothing that would fit a small number of one digit. */
  ghost predicate IsBig(digits: seq<nat>) {
    digits != [] && (|digits| == 1 ==> digits[0] > SMALL_MAX)
  }

  ghost predicate Ok(i: Integer)
    reads Objects(i)
  {
    && IsInteger(Word(i)) && (i.Small? <==> IsSmall(Word(i)))
    && (i.Big? ==> i.x.Ok() && IsBig(i.x.digits[..i.x.count]))
  }

  /** No leading zeros, as integers should be; but there are some that are not. */
  ghost predicate Trimmed(i: Integer)
    reads Objects(i)
  {
    i.Big? ==> i.x.count <= |i.x.digits| && Normal(i.x.digits[..i.x.count])
  }

  ghost predicate Negative(i: Integer)
    reads Objects(i)
  {
    if i.Small? then Unboxed(i.w) < 0 else i.x.isNeg
  }

  /** The number of digits that `n` needs; zero has one. */
  ghost function Length(n: nat): (c: nat)
    ensures c >= 1
  {
    var q := DivD(n, BASE);
    SmallerQuotient(n);
    if q == 0 then 1 else 1 + Length(q)
  }

  lemma SmallerQuotient(n: nat)
    ensures DivD(n, BASE) > 0 ==> DivD(n, BASE) < n
  {
    hide DivD, ModD;
    DivModD(n, BASE, 0);
    MulAtLeast(DivD(n, BASE), DivD(n, BASE), BASE, 2);
  }

  lemma {:induction false} LengthBounds(n: nat)
    ensures n < Pow(Length(n)) && (Length(n) > 1 ==> Pow(Length(n) - 1) <= n)
  {
    hide DivD, ModD, Pow;
    var q, r := DivD(n, BASE), ModD(n, BASE);
    DivModD(n, BASE, 0);
    SmallerQuotient(n);
    ValEmpty();
    LongDivision.PowStep(0);
    if q > 0 {
      LengthBounds(q);
      LongDivision.PowStep(Length(q));
      LongDivision.PowStep(Length(q) - 1);
      OneMoreDigit(n, q, r, Pow(Length(q)), if Length(q) > 1 then Pow(Length(q) - 1) else 1);
    }
  }

  lemma OneMoreDigit(n: nat, q: nat, r: nat, p: nat, p0: nat)
    requires n == q * BASE + r && r < BASE && p0 <= q < p
    ensures n < BASE * p && BASE * p0 <= n
  {
    MulAtLeast(p, q + 1, BASE, BASE);
    MulAtLeast(q, p0, BASE, BASE);
    assert (q + 1) * BASE == q * BASE + BASE;
  }

  /** The number of digits of an integer as a big integer. */
  ghost function Size(i: Integer): nat
    reads Objects(i)
  {
    if i.Small? then Length(Abs(Unboxed(i.w))) else i.x.count
  }

  /** The number with more digits is not the smaller one. */
  ghost predicate Decided(x: Integer, y: Integer)
    reads Objects(x), Objects(y)
    requires Ok(x) && Ok(y)
  {
    && (Size(x) < Size(y) ==> Abs(Denoted(x)) <= Abs(Denoted(y)))
    && (Size(y) < Size(x) ==> Abs(Denoted(y)) <= Abs(Denoted(x)))
  }

  /** What addition and subtraction compute beyond the difference of the absolute values. */
  ghost function Surplus(x: Integer, y: Integer): int
    reads Objects(x), Objects(y)
    requires Ok(x) && Ok(y)
  {
    if Decided(x, y) then 0 else if Size(x) > Size(y) then Pow(Size(x)) else -(Pow(Size(y)) as int)
  }

  lemma {:induction false} TrimmedBounds(i: Integer)
    requires Ok(i)
    ensures Size(i) >= 1 && Abs(Denoted(i)) < Pow(Size(i))
    ensures Trimmed(i) && Size(i) > 1 ==> Abs(Denoted(i)) >= Pow(Size(i) - 1)
    ensures Trimmed(i) && i.Big? ==> Denoted(i) != 0
  {
    hide Val, Pow, Length, Unboxed;
    if i.Small? {
      LengthBounds(Abs(Unboxed(i.w)));
    } else {
      ValBound(i.x.digits[..i.x.count]);
      if Trimmed(i) {
        ValAtLeast(i.x.digits[..i.x.count]);
      }
    }
  }

  /** Without leading zeros it never is. */
  lemma {:induction false} TrimmedDecided(x: Integer, y: Integer)
    requires Ok(x) && Ok(y)
    ensures Trimmed(y) && Size(x) < Size(y) ==> Abs(Denoted(x)) < Abs(Denoted(y))
    ensures Trimmed(x) && Size(y) < Size(x) ==> Abs(Denoted(y)) < Abs(Denoted(x))
    ensures Trimmed(x) && Trimmed(y) ==> Decided(x, y)
  {
    hide Pow, Size, Denoted, Trimmed;
    TrimmedBounds(x);
    TrimmedBounds(y);
    if Size(x) < Size(y) {
      PowMonotone(Size(x), Size(y) - 1);
    } else if Size(y) < Size(x) {
      PowMonotone(Size(y), Size(x) - 1);
    }
  }

  /** If `n` references to the integer were consumed and more remain, nothing was written. */
  twostate predicate Kept(i: Integer, n: nat)
    reads Objects(i)
  {
    i.Big? && old(i.x.rc) >= n ==> !i.x.freed && i.x.Same()
  }

  /** And the others are counted exactly. */
  twostate predicate Consumed(i: Integer, n: nat)
    reads Objects(i)
  {
    Kept(i, n) && (i.Big? && old(i.x.rc) >= n ==> i.x.rc == old(i.x.rc) - n)
  }

  /** The two arguments do not share their last reference. */
  ghost predicate Owned(x: Integer, y: Integer)
    reads Objects(x)
  {
    x.Big? && y.Big? && x.x == y.x ==> x.x.rc >= 1
  }

  /** How many references to `x` an operation on `x` and `y` consumes. */
  ghost function Uses(x: Integer, y: Integer): nat {
    if x.Big? && y.Big? && x.x == y.x then 2 else 1
  }

  const ZERO: Integer := Small(Boxed(0))

  // ------- conversions -------

  /** A big integer for a machine integer. */
  method FromInt(i: int) returns (b: Bigint)
    ensures fresh(b) && b.Ok() && b.rc == 0 && b.Value() == i && b.isNeg == (i < 0)
    ensures b.count == Length(Abs(i)) && Proper(b.digits[..b.count]) && (i != 0 ==> Normal(b.digits[..b.count]))
  {
    hide Val, Pow, DivD, ModD;
    var u: nat := if i >= 0 then i else -i;
    b := Alloc(0, i < 0);
    ValEmpty();
    assert b.digits[..0] == [];
    var first := true;
    while first || u > 0
      invariant fresh(b) && b.Ok() && b.rc == 0 && b.isNeg == (i < 0)
      invariant Remaining(b.digits[..b.count], u, first, if i >= 0 then i else -i)
      invariant b.count + (if first || u > 0 then Length(u) else 0) == Length(Abs(i))
      decreases first, u
    {
      PushDigit(b.digits[..b.count], u, first, if i >= 0 then i else -i);
      var d := ModD(u, BASE);
      b := Push(b, d);
      u := DivD(u, BASE);
      first := false;
    }
    assert 0 * Pow(b.count) == 0;
  }

  /** The digits of `v` produced so far, when `u` is still to be converted. */
  ghost predicate Remaining(s: seq<nat>, u: nat, first: bool, v: nat) {
    && Val(s) + u * Pow(|s|) == v
    && (if first then s == [] else s != [] && (u > 0 || (Proper(s) && (v != 0 ==> Normal(s)))))
  }

  lemma {:induction false} PushDigit(s: seq<nat>, u: nat, first: bool, v: nat)
    requires Remaining(s, u, first, v) && (first || u > 0)
    ensures Digit(ModD(u, BASE)) && (u > 0 ==> DivD(u, BASE) < u)
    ensures Remaining(s + [ModD(u, BASE)], DivD(u, BASE), false, v)
  {
    hide Val, Pow, DivD, ModD;
    var q, d, p := DivD(u, BASE), ModD(u, BASE), Pow(|s|);
    DivModD(u, BASE, 0);
    MulAtLeast(q, q, BASE, 2);
    Appended(s, d);
    CarryAt(|s|, d, q, u);
    assert s == [] ==> Val(s) == 0 && Pow(0) == 1 by {
      ValEmpty();
    }
  }

  lemma {:induction false} Appended(s: seq<nat>, d: nat)
    ensures Val(s + [d]) == Val(s) + d * Pow(|s|) && (d != 0 ==> Normal(s + [d]))
  {
    ValPrefix(s + [d], |s|);
    assert (s + [d])[..|s|] == s && (s + [d])[..|s| + 1] == s + [d];
  }

  /** Always a big integer. */
  method ToBigint(i: Integer) returns (b: Bigint)
    requires Ok(i)
    ensures if i.Big? then b == i.x else fresh(b) && b.rc == 0
    ensures b.Ok() && b.Value() == Denoted(i) && b.count == Size(i) >= 1 && b.isNeg == Negative(i)
    ensures Trimmed(i) ==> Proper(b.digits[..b.count]) && (Denoted(i) != 0 ==> Normal(b.digits[..b.count]))
    ensures i.Big? ==> (Trimmed(i) <==> Normal(b.digits[..b.count]))
  {
    hide Length;
    if i.Big? {
      b := i.x;
    } else {
      b := FromInt(Unboxed(i.w));
    }
  }

  /** The integer for a big integer: a small one if it has at most one digit that fits. (A number
      without digits is not given up.) */
  method FromBigint(b: Bigint) returns (i: Integer)
    requires b.Ok()
    modifies b`rc, b`freed
    ensures Ok(i) && Denoted(i) == old(b.Value()) && (Trimmed(i) <==> Proper(old(b.digits[..b.count])))
    ensures i.Small? && old(b.count) > 0 ==> b.GaveUp(1)
    ensures i.Big? ==> i.x == b && b.Same() && b.rc == old(b.rc) && !b.freed && b.count >= 1
  {
    MachineFacts();
    ghost var s := b.digits[..b.count];
    if b.count == 0 {
      ValEmpty();
      BoxUnbox(0);
      FastZero();
      return ZERO;
    }
    if b.count == 1 && b.digits[0] <= SMALL_MAX {
      OneDigit(s);
      var n: int := b.digits[0];
      if b.isNeg {
        n := -n;
      }
      Drop(b);
      BoxUnbox(n);
      SmallWord(n);
      return Small(Boxed(n));
    }
    var addr: int :| addr % 4 == 0 && InWord(addr);
    i := Big(addr, b);
  }

  lemma OneDigit(s: seq<nat>)
    requires |s| == 1
    ensures Val(s) == s[0]
  {
    ValPrefix(s, 0);
    ValEmpty();
    assert s[..1] == s && s[..0] == [];
  }

  lemma SmallWord(n: int)
    requires InSmall(n)
    ensures IsInteger(Boxed(n))
  {
    MachineFacts();
  }

  lemma FastZero()
    ensures InSmall(0) && IsInteger(Boxed(0))
  {
    MachineFacts();
  }

  // ------- addition, subtraction, multiplication -------

  /** Exact if and only if the signs are equal or the number with more digits is not the smaller one,
      and so for all integers without leading zeros. */
  method AddGeneric(x: Integer, y: Integer) returns (z: Integer)
    requires Ok(x) && Ok(y) && Owned(x, y)
    modifies Objects(x), Objects(y)
    ensures Ok(z) && (old(Trimmed(x) && Trimmed(y)) ==> Trimmed(z))
    ensures Denoted(z) == old(Denoted(x) + Denoted(y)) <==> old(Negative(x) != Negative(y) ==> Decided(x, y))
    ensures Denoted(z) == old(Denoted(x) + Denoted(y) + if Negative(x) == Negative(y) then 0 else SignedInt(Negative(x), Surplus(x, y)))
    ensures old(Trimmed(x) && Trimmed(y)) ==> Denoted(z) == old(Denoted(x) + Denoted(y))
    ensures Consumed(x, Uses(x, y)) && Consumed(y, Uses(x, y))
    ensures z.Big? ==> fresh(z.x) || (z.x in Objects(x) + Objects(y) && old(z.x.rc) == 0)
  {
    hide Val, Pow, AllDigits, Length, Unboxed, IsInteger, IsSmall, IsBig;
    TrimmedDecided(x, y);
    var xb := ToBigint(x);
    var yb := ToBigint(y);
    z := AddBig(xb, yb);
  }

  method AddBig(x: Bigint, y: Bigint) returns (z: Integer)
    requires x.Ok() && y.Ok() && (x == y ==> x.rc >= 1)
    modifies x, y
    ensures Ok(z) && (Proper(old(x.digits[..x.count])) && Proper(old(y.digits[..y.count])) ==> Trimmed(z))
    ensures Denoted(z) == old(x.Value()) + old(y.Value()) <==>
      (old(x.isNeg) != old(y.isNeg) ==> LongerNotSmaller(old(x.digits[..x.count]), old(y.digits[..y.count])))
    ensures Denoted(z) == old(x.Value()) + old(y.Value()) +
      if old(x.isNeg) == old(y.isNeg) then 0 else SignedInt(!old(y.isNeg), Excess(old(x.digits[..x.count]), old(y.digits[..y.count])))
    ensures if x == y then old(x.rc) >= 2 ==> x.GaveUp(2) else (old(x.rc) >= 1 ==> x.GaveUp(1)) && (old(y.rc) >= 1 ==> y.GaveUp(1))
    ensures z.Big? ==> fresh(z.x) || (z.x == x && old(x.rc) == 0) || (z.x == y && old(y.rc) == 0)
  {
    hide Val, Pow, AllDigits, Normal, Proper, IsBig, Unboxed, IsInteger, IsSmall, LongerNotSmaller, Excess;
    var b := Add(x, y, y.isNeg);
    z := FromBigint(b);
  }

  /** Exact if and only if the signs are different or the number with more digits is not the smaller
      one, and so for all integers without leading zeros. */
  method SubGeneric(x: Integer, y: Integer) returns (z: Integer)
    requires Ok(x) && Ok(y) && Owned(x, y)
    modifies Objects(x), Objects(y)
    ensures Ok(z) && (old(Trimmed(x) && Trimmed(y)) ==> Trimmed(z))
    ensures Denoted(z) == old(Denoted(x) - Denoted(y)) <==> old(Negative(x) == Negative(y) ==> Decided(x, y))
    ensures Denoted(z) == old(Denoted(x) - Denoted(y) + if Negative(x) != Negative(y) then 0 else SignedInt(Negative(x), Surplus(x, y)))
    ensures old(Trimmed(x) && Trimmed(y)) ==> Denoted(z) == old(Denoted(x) - Denoted(y))
    ensures Consumed(x, Uses(x, y)) && Consumed(y, Uses(x, y))
    ensures z.Big? ==> fresh(z.x) || (z.x in Objects(x) + Objects(y) && old(z.x.rc) == 0)
  {
    hide Val, Pow, AllDigits, Length, Unboxed, IsInteger, IsSmall, IsBig;
    TrimmedDecided(x, y);
    var xb := ToBigint(x);
    var yb := ToBigint(y);
    z := SubBig(xb, yb);
  }

  method SubBig(x: Bigint, y: Bigint) returns (z: Integer)
    requires x.Ok() && y.Ok() && (x == y ==> x.rc >= 1)
    modifies x, y
    ensures Ok(z) && (Proper(old(x.digits[..x.count])) && Proper(old(y.digits[..y.count])) ==> Trimmed(z))
    ensures Denoted(z) == old(x.Value()) - old(y.Value()) <==>
      (old(x.isNeg) == old(y.isNeg) ==> LongerNotSmaller(old(x.digits[..x.count]), old(y.digits[..y.count])))
    ensures Denoted(z) == old(x.Value()) - old(y.Value()) +
      if old(x.isNeg) != old(y.isNeg) then 0 else SignedInt(old(y.isNeg), Excess(old(x.digits[..x.count]), old(y.digits[..y.count])))
    ensures if x == y then old(x.rc) >= 2 ==> x.GaveUp(2) else (old(x.rc) >= 1 ==> x.GaveUp(1)) && (old(y.rc) >= 1 ==> y.GaveUp(1))
    ensures z.Big? ==> fresh(z.x) || (z.x == x && old(x.rc) == 0) || (z.x == y && old(y.rc) == 0)
  {
    hide Val, Pow, AllDigits, Normal, Proper, IsBig, Unboxed, IsInteger, IsSmall, LongerNotSmaller, Excess;
    var b := Sub(x, y, y.isNeg);
    z := FromBigint(b);
  }

  /** The choice of algorithm is a question of speed only. */
  method MulGeneric(x: Integer, y: Integer, useKaratsuba: bool) returns (z: Integer)
    requires Ok(x) && Ok(y) && Owned(x, y)
    modifies Objects(x), Objects(y)
    ensures Ok(z) && Trimmed(z) && Denoted(z) == old(Denoted(x)) * old(Denoted(y)) && (z.Big? ==> fresh(z.x))
    ensures Kept(x, Uses(x, y)) && Kept(y, Uses(x, y))
    ensures !useKaratsuba || old(Size(x) <= 25 && Size(y) <= 25) ==> Consumed(x, Uses(x, y)) && Consumed(y, Uses(x, y))
  {
    hide Val, Pow, AllDigits, Normal, Proper, Length, IsBig, Unboxed, IsInteger, IsSmall;
    var xb := ToBigint(x);
    var yb := ToBigint(y);
    ghost var s, a, t, b := xb.isNeg, xb.Abs(), yb.isNeg, yb.Abs();
    var zb := MulBig(xb, yb, useKaratsuba);
    SignedProduct(s, a, t, b);
    NormalIsProper(zb.digits[..zb.count]);
    z := FromBigint(zb);
  }

  lemma NormalIsProper(s: seq<nat>)
    requires Normal(s)
    ensures Proper(s)
  {
  }

  method MulBig(x: Bigint, y: Bigint, useKaratsuba: bool) returns (z: Bigint)
    requires x.Ok() && y.Ok() && (x == y ==> x.rc >= 1)
    modifies x, y
    ensures z.Ok() && z.rc == 0 && fresh(z) && Normal(z.digits[..z.count])
    ensures z.isNeg == (old(x.isNeg) != old(y.isNeg)) && z.Abs() == old(x.Abs()) * old(y.Abs())
    ensures !useKaratsuba || (old(x.count) <= 25 && old(y.count) <= 25) ==>
      if x == y then x.GaveUp(2) else x.GaveUp(1) && y.GaveUp(1)
    ensures old(x.rc) >= (if x == y then 2 else 1) ==> !x.freed && x.Same()
    ensures old(y.rc) >= (if x == y then 2 else 1) ==> !y.freed && y.Same()
  {
    hide Val, Pow, AllDigits, Normal;
    if useKaratsuba {
      z := Karatsuba.MulKaratsuba(x, y);
    } else {
      z := Mul(x, y);
    }
  }

  lemma SignedProduct(s: bool, a: int, t: bool, b: int)
    ensures (if s then -a else a) * (if t then -b else b) == if s != t then -(a * b) else a * b
  {
  }

  /** As the generic addition; the fast path is always exact. */
  method AddInteger(x: Integer, y: Integer) returns (z: Integer)
    requires Ok(x) && Ok(y) && Owned(x, y)
    modifies Objects(x), Objects(y)
    ensures Ok(z) && (old(Trimmed(x) && Trimmed(y)) ==> Trimmed(z))
    ensures Denoted(z) == old(Denoted(x) + Denoted(y)) <==> old(Negative(x) != Negative(y) ==> Decided(x, y))
    ensures Denoted(z) == old(Denoted(x) + Denoted(y) + if Negative(x) == Negative(y) then 0 else SignedInt(Negative(x), Surplus(x, y)))
    ensures old(Trimmed(x) && Trimmed(y)) ==> Denoted(z) == old(Denoted(x) + Denoted(y))
    ensures Consumed(x, Uses(x, y)) && Consumed(y, Uses(x, y))
    ensures z.Big? ==> fresh(z.x) || (z.x in Objects(x) + Objects(y) && old(z.x.rc) == 0)
  {
    hide IsInteger, InFast, Unboxed, AddFast, Length;
    AddFastExact(Word(x), Word(y));
    TrimmedDecided(x, y);
    match AddFast(Word(x), Word(y))
    case Some(w) =>
      FastResult(Unboxed(Word(x)) + Unboxed(Word(y)));
      z := Small(w);
    case None =>
      z := AddGeneric(x, y);
  }

  /** As the generic subtraction; the fast path is always exact. */
  method SubInteger(x: Integer, y: Integer) returns (z: Integer)
    requires Ok(x) && Ok(y) && Owned(x, y)
    modifies Objects(x), Objects(y)
    ensures Ok(z) && (old(Trimmed(x) && Trimmed(y)) ==> Trimmed(z))
    ensures Denoted(z) == old(Denoted(x) - Denoted(y)) <==> old(Negative(x) == Negative(y) ==> Decided(x, y))
    ensures Denoted(z) == old(Denoted(x) - Denoted(y) + if Negative(x) != Negative(y) then 0 else SignedInt(Negative(x), Surplus(x, y)))
    ensures old(Trimmed(x) && Trimmed(y)) ==> Denoted(z) == old(Denoted(x) - Denoted(y))
    ensures Consumed(x, Uses(x, y)) && Consumed(y, Uses(x, y))
    ensures z.Big? ==> fresh(z.x) || (z.x in Objects(x) + Objects(y) && old(z.x.rc) == 0)
  {
    hide IsInteger, InFast, Unboxed, SubFast, Length;
    SubFastExact(Word(x), Word(y));
    TrimmedDecided(x, y);
    match SubFast(Word(x), Word(y))
    case Some(w) =>
      FastResult(Unboxed(Word(x)) - Unboxed(Word(y)));
      z := Small(w);
    case None =>
      z := SubGeneric(x, y);
  }

  lemma FastResult(n: int)
    requires InFast(n)
    ensures IsInteger(Boxed(n)) && IsSmall(Boxed(n)) && Unboxed(Boxed(n)) == n
  {
    FastIsSmall(n);
    BoxUnbox(n);
  }

  /** Adding a small constant. */
  method AddSmallConst(x: Integer, i: int) returns (z: Integer)
    requires Ok(x) && InSmall(i)
    modifies Objects(x)
    ensures Ok(z) && Ok(Small(Boxed(i))) && (old(Trimmed(x)) ==> Trimmed(z))
    ensures Denoted(z) == old(Denoted(x)) + i <==> (old(Negative(x)) != (i < 0) ==> old(Decided(x, Small(Boxed(i)))))
    ensures Denoted(z) == old(Denoted(x) + i + if Negative(x) == (i < 0) then 0 else SignedInt(Negative(x), Surplus(x, Small(Boxed(i)))))
    ensures old(Trimmed(x)) ==> Denoted(z) == old(Denoted(x)) + i
    ensures Kept(x, 1) && Consumed(x, 1)
    ensures z.Big? ==> fresh(z.x) || (z.x in Objects(x) && old(z.x.rc) == 0)
  {
    hide IsInteger, InFast, Unboxed, AddConstFast, Length;
    SmallWord(i);
    BoxUnbox(i);
    AddConstFastExact(Word(x), i);
    TrimmedDecided(x, Small(Boxed(i)));
    match AddConstFast(Word(x), i)
    case Some(w) =>
      FastResult(Unboxed(Word(x)) + i);
      z := Small(w);
    case None =>
      z := AddGeneric(x, Small(Boxed(i)));
  }

  /** Exact on all integers, leading zeros or not, except that the smallest small number times itself is
      lost when overflow is detected by sign extension. */
  method MulInteger(x: Integer, y: Integer, useKaratsuba: bool) returns (z: Integer)
    requires Ok(x) && Ok(y) && Owned(x, y)
    modifies Objects(x), Objects(y)
    ensures Ok(z) && Trimmed(z)
    ensures Denoted(z) == old(Denoted(x)) * old(Denoted(y)) <==> !(MACHINE.scheme.SignExtend? && x.Small? && y.Small? && old(Denoted(x)) == old(Denoted(y)) == -(SMALL_MAX as int) - 1)
    ensures Kept(x, Uses(x, y)) && Kept(y, Uses(x, y)) && (z.Big? ==> fresh(z.x))
    ensures !useKaratsuba || old(Size(x) <= 25 && Size(y) <= 25) ==> Consumed(x, Uses(x, y)) && Consumed(y, Uses(x, y))
  {
    hide IsInteger, Unboxed, MulFast;
    MachineFacts();
    if x.Small? && y.Small? {
      MulFastExact(Word(x), Word(y));
      match MulFast(Word(x), Word(y)) {
        case Some(w) =>
          MulFastIsSmall(Word(x), Word(y));
          BoxUnbox(Unboxed(Word(x)) * Unboxed(Word(y)));
          BoxUnbox(0);
          z := Small(w);
        case None =>
          z := MulGeneric(x, y, useKaratsuba);
      }
    } else {
      z := MulGeneric(x, y, useKaratsuba);
    }
  }

  /** Negation: -x. */
  method NegInteger(x: Integer) returns (z: Integer)
    requires Ok(x)
    modifies Objects(x)
    ensures Ok(z) && Denoted(z) == -old(Denoted(x)) && (old(Trimmed(x)) ==> Trimmed(z))
    ensures Kept(x, 1) && Consumed(x, 1)
    ensures z.Big? ==> fresh(z.x) || (z.x in Objects(x) && old(z.x.rc) == z.x.rc == 0)
  {
    hide Length;
    FastZero();
    BoxUnbox(0);
    if x.Small? {
      z := SubInteger(ZERO, x);
    } else {
      var b := x.x;
      if b.rc != 0 {
        b := Copy(b, 0);
      }
      b.isNeg := !b.isNeg;
      z := FromBigint(b);
    }
  }

  // ------- division -------

  /** `d` and `m` are quotient and remainder of a division that rounds towards zero. */
  ghost predicate Truncated(x: int, y: int, d: int, m: int) {
    x == d * y + m && Abs(m) < Abs(y) && (m > 0 ==> x > 0) && (m < 0 ==> x < 0)
  }

  /** The signs of quotient and remainder. */
  lemma SignedDivision(xs: bool, xa: nat, ys: bool, ya: nat, d: nat, m: nat)
    requires xa == d * ya + m && m < ya
    ensures Truncated(Signed(xs, xa), Signed(ys, ya), Signed(xs != ys, d), Signed(xs, m))
  {
    SignedQuotient(d, ya);
    assert d * ya >= 0;
  }

  lemma SignedQuotient(d: int, y: int)
    ensures -d * -y == d * y && -d * y == -(d * y) && d * -y == -(d * y)
  {
  }

  /** The integer for a machine integer. */
  method FromMachineInt(i: int) returns (z: Integer)
    ensures Ok(z) && Trimmed(z) && Denoted(z) == i && (z.Big? ==> fresh(z.x) && i != 0 && z.x.isNeg == (i < 0))
  {
    hide Length;
    FastZero();
    if InSmall(i) {
      SmallWord(i);
      BoxUnbox(i);
      z := Small(Boxed(i));
    } else {
      var b := FromInt(i);
      z := FromBigint(b);
    }
  }

  /** Division by a number of one digit. */
  method DivSmall(x: Integer, ay: nat, ayNeg: bool) returns (d: Integer, m: Integer)
    requires Ok(x) && Digit(ay) && ay > 0
    modifies Objects(x)
    ensures Ok(d) && Ok(m) && Trimmed(d) && Trimmed(m)
    ensures Truncated(old(Denoted(x)), Signed(ayNeg, ay), Denoted(d), Denoted(m))
    ensures (d.Big? ==> fresh(d.x) || (d.x in Objects(x) && old(d.x.rc) == d.x.rc == 0)) && (m.Big? ==> fresh(m.x) && m.x !in Objects(d))
    ensures Kept(x, 1) && Consumed(x, 1)
  {
    hide Val, Pow, AllDigits, IsBig, Truncated, Unboxed, IsInteger, IsSmall, Boxed, Length;
    var xb := ToBigint(x);
    var xneg := xb.isNeg;
    ghost var xa := xb.Abs();
    var zb, dmod := CdivCmodSmall(xb, ay);
    zb.isNeg := xneg != ayNeg;
    SignedDivision(xneg, xa, ayNeg, ay, zb.Abs(), dmod);
    d := FromBigint(zb);
    var imod: int := dmod;
    if xneg {
      imod := -imod;
    }
    m := FromMachineInt(imod);
  }

  /** The comparison of `x` and `y`, lengths first, comes out as less, or as greater. */
  ghost predicate Below(x: Integer, y: Integer)
    reads Objects(x), Objects(y)
    requires Ok(x) && Ok(y)
  {
    Size(x) < Size(y) || (Size(x) == Size(y) && Abs(Denoted(x)) < Abs(Denoted(y)))
  }

  ghost predicate Above(x: Integer, y: Integer)
    reads Objects(x), Objects(y)
    requires Ok(x) && Ok(y)
  {
    Size(x) > Size(y) || (Size(x) == Size(y) && Abs(Denoted(x)) > Abs(Denoted(y)))
  }

  /** Division rounding towards zero is exact: always for a divisor without leading zeros; otherwise if
      the dividend is neither longer nor larger, nor as large but shorter, and the divisor is not zero. */
  ghost predicate Divisible(x: Integer, y: Integer)
    reads Objects(x), Objects(y)
    requires Ok(x) && Ok(y)
  {
    Trimmed(y) || (Size(x) <= Size(y) && Abs(Denoted(x)) <= Abs(Denoted(y)) && Denoted(y) != 0
                   && (Abs(Denoted(x)) == Abs(Denoted(y)) ==> Size(x) == Size(y)))
  }

  lemma {:induction false} DivisibleCases(x: Integer, y: Integer)
    requires Ok(x) && Ok(y) && !(y.Small? && Denoted(y) == 0)
    ensures Below(x, y) ==> (Divisible(x, y) <==> Abs(Denoted(x)) < Abs(Denoted(y)))
    ensures Above(x, y) ==> (Divisible(x, y) <==> Trimmed(y))
    ensures !Below(x, y) && !Above(x, y) ==> Abs(Denoted(x)) == Abs(Denoted(y)) && (Divisible(x, y) <==> Abs(Denoted(y)) > 0)
    ensures (if Size(x) != Size(y) then Sign(Size(x) - Size(y)) else Sign(Abs(Denoted(x)) - Abs(Denoted(y)))) ==
      if Below(x, y) then -1 else if Above(x, y) then 1 else 0
    ensures !(Below(x, y) && Above(x, y))
  {
    hide Pow, Size, Denoted, Trimmed;
    TrimmedBounds(y);
    TrimmedDecided(x, y);
    SmallIsTrimmed(y);
  }

  lemma SmallIsTrimmed(y: Integer)
    ensures y.Small? ==> Trimmed(y)
  {
  }

  /** Division of big integers, rounding towards zero. With a leading zero in the divisor of a longer
      (or greater) dividend it is a machine division by zero, which is not defined. */
  method DivBig(x: Integer, y: Integer) returns (defined: bool, d: Integer, m: Integer)
    requires Ok(x) && Ok(y) && Owned(x, y) && !(y.Small? && Denoted(y) == 0)
    modifies Objects(x), Objects(y)
    ensures defined <==> old(Trimmed(y) || !Above(x, y))
    ensures defined ==> Ok(d) && Ok(m) && Trimmed(d)
    ensures defined && Truncated(old(Denoted(x)), old(Denoted(y)), Denoted(d), Denoted(m)) <==> old(Divisible(x, y))
    ensures old(Below(x, y)) ==> d == ZERO && m == x && (x.Big? ==> !x.x.freed && x.x.Same())
    ensures defined && !old(Below(x, y)) ==> Trimmed(m) && (!old(Trimmed(y)) ==> m == ZERO)
    ensures Kept(x, Uses(x, y)) && Kept(y, Uses(x, y)) && (defined ==> Consumed(y, Uses(x, y)))
    ensures d.Big? ==> fresh(d.x)
    ensures m.Big? && m.x in Objects(x) ==> m.x.rc == old(m.x.rc)
    ensures m.Big? ==> m.x !in Objects(d) && m.x !in Objects(y) && (fresh(m.x) || m.x in Objects(x))
  {
    hide Val, Pow, AllDigits, IsBig, Truncated, Unboxed, IsInteger, IsSmall, Boxed, InSmall, Length, Divisible, Below, Above, Normal, Proper, Trimmed, Negative, Size;
    FastZero();
    BoxUnbox(0);
    DivisibleCases(x, y);
    var xb := ToBigint(x);
    var yb := ToBigint(y);
    ghost var xs, xa, ys, ya := xb.isNeg, xb.Abs(), yb.isNeg, yb.Abs();
    var cmp := CompareAbs(xb, yb);
    SmallIsTrimmed(y);
    if cmp < 0 {
      QuotientZero(xs, xa, ys, ya);
      DropInteger(y);
      SmallIsTrimmed(ZERO);
      return true, ZERO, x;
    }
    defined, d, m := DivNotBelow(x, y, xb, yb, cmp);
  }

  method DivNotBelow(x: Integer, y: Integer, xb: Bigint, yb: Bigint, cmp: int) returns (defined: bool, d: Integer, m: Integer)
    requires xb.Ok() && yb.Ok() && 0 < yb.count <= xb.count && (x.Big? ==> x.x == xb) && (y.Big? ==> y.x == yb)
    requires if cmp == 0 then xb.Abs() == yb.Abs() && (xb == yb ==> x.Big? && y.Big? && xb.rc >= 1) else cmp > 0 && xb != yb
    modifies xb, yb
    ensures defined <==> cmp == 0 || old(Normal(yb.digits[..yb.count]))
    ensures defined ==> Ok(d) && Ok(m) && Trimmed(d) && Trimmed(m) && (cmp == 0 ==> m == ZERO)
    ensures defined ==> (Truncated(old(xb.Value()), old(yb.Value()), Denoted(d), Denoted(m)) <==> cmp > 0 || old(yb.Abs()) > 0)
    ensures Kept(x, Uses(x, y)) && Kept(y, Uses(x, y)) && (defined ==> Consumed(y, Uses(x, y)))
    ensures d.Big? ==> fresh(d.x)
    ensures m.Big? ==> m.x !in Objects(d) && m.x != yb && (fresh(m.x) || (m.x == xb && old(xb.rc) == xb.rc == 0))
  {
    hide Val, Pow, AllDigits, IsBig, Truncated, Unboxed, IsInteger, IsSmall, Boxed, Normal, Digits.Proper;
    FastZero();
    BoxUnbox(0);
    TopDigit(yb);
    if cmp == 0 {
      QuotientOne(xb.isNeg, xb.Abs(), yb.isNeg);
      d := DivEqual(x, y, xb.isNeg == yb.isNeg);
      return true, d, ZERO;
    }
    if yb.LastDigit() == 0 {
      return false, ZERO, ZERO;
    }
    d, m := DivLarger(xb, yb);
    defined := true;
  }

  method DivEqual(x: Integer, y: Integer, sameSign: bool) returns (d: Integer)
    requires (x.Big? ==> !x.x.freed) && (y.Big? ==> !y.x.freed) && Owned(x, y)
    modifies Objects(x), Objects(y)
    ensures Ok(d) && d.Small? && Trimmed(d) && Trimmed(ZERO) && Denoted(d) == (if sameSign then 1 else -1)
    ensures Kept(x, Uses(x, y)) && Kept(y, Uses(x, y)) && Consumed(y, Uses(x, y))
  {
    FastOne();
    var i := if sameSign then 1 else -1;
    BoxUnbox(i);
    DropInteger(x);
    DropInteger(y);
    d := Small(Boxed(i));
  }

  lemma TopDigit(b: Bigint)
    requires b.Ok() && b.count > 0
    ensures b.LastDigit() == 0 <==> !Normal(b.digits[..b.count])
  {
  }

  lemma QuotientZero(xs: bool, xa: nat, ys: bool, ya: nat)
    ensures Truncated(Signed(xs, xa), Signed(ys, ya), 0, Signed(xs, xa)) <==> xa < ya
  {
  }

  lemma QuotientOne(xs: bool, a: nat, ys: bool)
    ensures Truncated(Signed(xs, a), Signed(ys, a), if xs == ys then 1 else -1, 0) <==> a > 0
  {
  }

  /** The case of a larger dividend. */
  method DivLarger(x: Bigint, y: Bigint) returns (d: Integer, m: Integer)
    requires x.Ok() && y.Ok() && x != y && Normal(y.digits[..y.count]) && 0 < y.count <= x.count
    modifies x, y
    ensures Ok(d) && Ok(m) && Trimmed(d) && Trimmed(m)
    ensures Truncated(old(x.Value()), old(y.Value()), Denoted(d), Denoted(m))
    ensures (old(x.rc) > 0 ==> x.GaveUp(1)) && (old(y.rc) > 0 ==> y.GaveUp(1))
    ensures d.Big? ==> fresh(d.x)
    ensures m.Big? ==> m.x !in Objects(d) && m.x != y && (fresh(m.x) || (m.x == x && old(x.rc) == x.rc == 0))
  {
    hide Val, Pow, AllDigits, IsBig, Truncated, Unboxed, IsInteger, IsSmall, Boxed;
    ghost var xs, xa, ys, ya := x.isNeg, x.Abs(), y.isNeg, y.Abs();
    var qneg := x.isNeg != y.isNeg;
    var mneg := x.isNeg;
    var zb, mb := LongDivision.CdivCmod(x, y);
    zb.isNeg := qneg;
    mb.isNeg := mneg;
    SignedDivision(xs, xa, ys, ya, zb.Abs(), mb.Abs());
    m := FromBigint(mb);
    d := FromBigint(zb);
  }

  lemma FastOne()
    ensures InSmall(1) && InSmall(-1) && IsInteger(Boxed(1)) && IsInteger(Boxed(-1))
  {
    MachineFacts();
  }

  method DropInteger(x: Integer)
    requires x.Big? ==> !x.x.freed
    modifies Objects(x)
    ensures Kept(x, 1) && Consumed(x, 1) && (x.Big? ==> x.x.GaveUp(1))
  {
    if x.Big? {
      Drop(x.x);
    }
  }

  /** The divisor is a machine integer of one digit. */
  ghost predicate OneDigitDivisor(y: Integer) {
    y.Small? && Abs(Unboxed(y.w)) < BASE
  }

  /** Division rounding towards zero; for a zero divisor the remainder is left as it was. */
  method CdivCmodGeneric(x: Integer, y: Integer, m0: Integer) returns (defined: bool, d: Integer, m: Integer)
    requires Ok(x) && Ok(y) && Ok(m0) && Owned(x, y)
    requires m0.Small?
    modifies Objects(x), Objects(y)
    ensures defined <==> old(Trimmed(y) || !Above(x, y))
    ensures defined ==> Ok(d) && Ok(m) && (old(Trimmed(x)) ==> Trimmed(d) && Trimmed(m))
    ensures y.Small? && old(Denoted(y)) == 0 ==> Denoted(d) == 0 && m == m0
    ensures !(y.Small? && old(Denoted(y)) == 0) ==>
      (defined && Truncated(old(Denoted(x)), old(Denoted(y)), Denoted(d), Denoted(m)) <==> old(Divisible(x, y)))
    ensures !OneDigitDivisor(y) && old(Below(x, y)) ==>
      d == ZERO && m == x && Denoted(m) == old(Denoted(x)) && Size(m) == old(Size(x)) && Negative(m) == old(Negative(x))
    ensures y.Big? && old(y.x.rc) >= Uses(x, y) ==>
      Ok(y) && Denoted(y) == old(Denoted(y)) && Size(y) == old(Size(y)) && Negative(y) == old(Negative(y)) && Trimmed(y) == old(Trimmed(y))
    ensures defined && (OneDigitDivisor(y) || !old(Below(x, y))) ==> Trimmed(m) && (m != ZERO ==> Trimmed(d)) && (!old(Trimmed(y)) ==> m == ZERO)
    ensures Kept(x, Uses(x, y)) && Kept(y, Uses(x, y)) && (defined ==> Consumed(y, Uses(x, y)))
    ensures m.Big? && m.x in Objects(x) ==> m.x.rc == old(m.x.rc)
    ensures d.Big? && d.x in Objects(x) ==> d.x.rc == old(d.x.rc)
    ensures d.Big? ==> fresh(d.x) || (d.x in Objects(x) && y.Small?)
    ensures m.Big? ==> m.x !in Objects(d) && m.x !in Objects(y) && (fresh(m.x) || m.x in Objects(x))
  {
    hide Val, Pow, AllDigits, IsBig, Unboxed, IsInteger, IsSmall, Boxed, InSmall, Length, Below, Above;
    if y.Small? && -(BASE as int) < Unboxed(y.w) < BASE {
      defined := true;
      d, m := DivDigit(x, Unboxed(y.w), m0);
    } else {
      defined, d, m := DivBig(x, y);
    }
  }

  method DivDigit(x: Integer, y: int, m0: Integer) returns (d: Integer, m: Integer)
    requires Ok(x) && -(BASE as int) < y < BASE && Ok(m0) && m0.Small?
    modifies Objects(x)
    ensures Ok(d) && Ok(m) && Trimmed(m) && (old(Trimmed(x)) || m != ZERO ==> Trimmed(d))
    ensures if y == 0 then d == ZERO && Denoted(d) == 0 && m == m0 else Truncated(old(Denoted(x)), y, Denoted(d), Denoted(m))
    ensures Kept(x, 1)
    ensures d.Big? ==> fresh(d.x) || (d.x in Objects(x) && d.x.rc == old(d.x.rc))
    ensures m.Big? ==> fresh(m.x) && m.x !in Objects(d)
  {
    hide Val, Pow, AllDigits, IsBig, Unboxed, IsInteger, IsSmall, Boxed, InSmall, Length;
    FastZero();
    BoxUnbox(0);
    if y == 0 {
      return ZERO, m0;
    }
    if y == 1 {
      return x, ZERO;
    }
    if y == -1 {
      d := NegInteger(x);
      return d, ZERO;
    }
    var ay, ayNeg := y, y < 0;
    if ayNeg {
      ay := -ay;
    }
    d, m := DivSmall(x, ay, ayNeg);
  }

  ghost predicate Euclidean(x: int, y: int, d: int, m: int) {
    x == d * y + m && 0 <= m < Abs(y)
  }

  lemma {:induction false} ToEuclidean(x: int, y: int, d: int, m: int)
    requires Truncated(x, y, d, m)
    ensures m >= 0 ==> Euclidean(x, y, d, m)
    ensures m < 0 && y < 0 ==> Euclidean(x, y, d + 1, m - y)
    ensures m < 0 && y > 0 ==> Euclidean(x, y, d - 1, m + y)
  {
    assert (d + 1) * y == d * y + y && (d - 1) * y == d * y - y;
  }

  /** For dividends that are not negative the two divisions are the same. */
  lemma {:induction false} EuclideanIsTruncated(x: int, y: int, d: int, m: int)
    requires x >= 0
    ensures Euclidean(x, y, d, m) <==> Truncated(x, y, d, m)
  {
    if Euclidean(x, y, d, m) && x == 0 && m > 0 {
      if d != 0 {
        MulAtLeast(Abs(d), 1, Abs(y), Abs(y));
        SignedQuotient(Abs(d), Abs(y));
      }
    }
  }

  /** By the sign of big integers, also of those that are zero. */
  method IsNegative(x: Integer) returns (neg: bool)
    requires Ok(x)
    ensures neg <==> Negative(x)
  {
    if x.Small? {
      neg := x.w < 0;
    } else {
      neg := x.x.isNeg;
    }
  }

  ghost predicate Positive(x: Integer)
    reads Objects(x)
  {
    if x.Small? then Unboxed(x.w) > 0 else !x.x.isNeg
  }

  method IsPositive(x: Integer) returns (pos: bool)
    requires Ok(x)
    ensures pos <==> Positive(x)
  {
    if x.Small? {
      pos := x.w > Boxed(0);
    } else {
      pos := !x.x.isNeg;
    }
  }

  /** A big integer is never found to be zero. */
  method IsZero(x: Integer) returns (zero: bool)
    requires Ok(x)
    ensures zero <==> x.Small? && Denoted(x) == 0
    ensures Trimmed(x) ==> (zero <==> Denoted(x) == 0)
  {
    TrimmedBounds(x);
    if x.Small? {
      zero := x.w == Boxed(0);
    } else {
      zero := false;
    }
  }

  lemma ZeroIsOk()
    ensures Ok(ZERO) && Denoted(ZERO) == 0
  {
    FastZero();
    BoxUnbox(0);
  }

  /** A zero with a minus sign and several digits. */
  ghost predicate NegativeZero(x: Integer)
    reads Objects(x)
    requires Ok(x)
  {
    Negative(x) && Denoted(x) == 0
  }

  /** The remainder of a division towards zero is the dividend itself. */
  ghost predicate KeepsDividend(x: Integer, y: Integer)
    reads Objects(x), Objects(y)
    requires Ok(x) && Ok(y)
  {
    !OneDigitDivisor(y) && Below(x, y)
  }

  /** Euclidean division is exact. A zero with a minus sign is corrected once too often as a remainder;
      and a dividend that is shorter than its equal is put right by the correction. */
  ghost predicate EuclideanExact(x: Integer, y: Integer)
    reads Objects(x), Objects(y)
    requires Ok(x) && Ok(y)
  {
    if Positive(x) then Divisible(x, y)
    else (Divisible(x, y) && !(NegativeZero(x) && KeepsDividend(x, y)))
         || (!Trimmed(y) && Size(x) < Size(y) && Abs(Denoted(x)) == Abs(Denoted(y)) != 0)
  }

  /** Another reference to `y`; nothing else about integers depends on the count of references. */
  method DupInteger(y: Integer, ghost x: Integer)
    requires Ok(x) && Ok(y)
    modifies Objects(y)
    ensures y.Big? ==> y.x.Same() && y.x.rc == old(y.x.rc) + 1
    ensures Ok(x) && Denoted(x) == old(Denoted(x)) && Size(x) == old(Size(x)) && Negative(x) == old(Negative(x)) && Trimmed(x) == old(Trimmed(x))
    ensures Ok(y) && Denoted(y) == old(Denoted(y)) && Size(y) == old(Size(y)) && Negative(y) == old(Negative(y)) && Trimmed(y) == old(Trimmed(y))
  {
    hide Length, Val, IsInteger, IsSmall, Unboxed, IsBig;
    if y.Big? {
      Dup(y.x);
    }
  }

  /** Without leading zeros it always is. */
  lemma {:induction false} TrimmedDivides(x: Integer, y: Integer)
    requires Ok(x) && Ok(y) && Trimmed(x) && Trimmed(y)
    ensures Divisible(x, y) && EuclideanExact(x, y)
  {
    hide Size, Pow, Unboxed;
    TrimmedBounds(x);
  }

  /** More exactly, only leading zeros of the divisor, or a dividend that is a zero with a minus sign,
      can make a difference. */
  lemma {:induction false} MostlyExact(x: Integer, y: Integer)
    requires Ok(x) && Ok(y) && (y.Big? ==> Normal(y.x.digits[..y.x.count])) && !(x.Big? && x.x.isNeg && Denoted(x) == 0)
    ensures Divisible(x, y) && EuclideanExact(x, y)
  {
    hide Size, Pow;
    TrimmedBounds(x);
  }

  /** Euclidean division: x = d * y + m with 0 <= m < |y|. */
  method DivModGeneric(x: Integer, y: Integer) returns (defined: bool, d: Integer, m: Integer)
    requires Ok(x) && Ok(y) && Owned(x, y)
    modifies Objects(x), Objects(y)
    ensures defined <==> old(Trimmed(y) || !Above(x, y))
    ensures defined ==> Ok(d) && Ok(m) && (old(Trimmed(x) && Trimmed(y)) ==> Trimmed(d) && Trimmed(m))
    ensures y.Small? && old(Denoted(y)) == 0 ==> Denoted(d) == 0 && Denoted(m) == old(Denoted(x))
    ensures !(y.Small? && old(Denoted(y)) == 0) ==>
      (defined && Euclidean(old(Denoted(x)), old(Denoted(y)), Denoted(d), Denoted(m)) <==> old(EuclideanExact(x, y)))
    ensures Kept(x, Uses(x, y)) && Kept(y, Uses(x, y))
  {
    hide Val, Pow, AllDigits, IsBig, Unboxed, IsInteger, IsSmall, Boxed, InSmall, Truncated, Euclidean, Above, EuclideanExact, Positive, Length;
    ZeroIsOk();
    var zero := IsZero(y);
    var pos := IsPositive(x);
    if zero {
      defined, d, m := true, ZERO, x;
    } else if pos {
      defined, d, m := DivModPositive(x, y);
    } else {
      defined, d, m := DivModNonPositive(x, y);
    }
  }

  method DivModPositive(x: Integer, y: Integer) returns (defined: bool, d: Integer, m: Integer)
    requires Ok(x) && Ok(y) && Owned(x, y) && !(y.Small? && Denoted(y) == 0) && Positive(x)
    modifies Objects(x), Objects(y)
    ensures defined <==> old(Trimmed(y) || !Above(x, y))
    ensures defined ==> Ok(d) && Ok(m) && (old(Trimmed(x) && Trimmed(y)) ==> Trimmed(d) && Trimmed(m))
    ensures defined && Euclidean(old(Denoted(x)), old(Denoted(y)), Denoted(d), Denoted(m)) <==> old(EuclideanExact(x, y))
    ensures Kept(x, Uses(x, y)) && Kept(y, Uses(x, y))
  {
    hide Val, Pow, AllDigits, IsBig, Unboxed, IsInteger, IsSmall, Boxed, InSmall, Euclidean, Truncated, Above, Divisible, Below;
    ZeroIsOk();
    ghost var vx, vy := Denoted(x), Denoted(y);
    NotNegative(x);
    defined, d, m := CdivCmodGeneric(x, y, ZERO);
    if defined {
      EuclideanIsTruncated(vx, vy, Denoted(d), Denoted(m));
    }
  }

  lemma NotNegative(x: Integer)
    requires Ok(x)
    ensures Positive(x) ==> Denoted(x) >= 0
    ensures !Positive(x) ==> Denoted(x) <= 0
    ensures Denoted(x) < 0 ==> Negative(x)
    ensures Denoted(x) > 0 ==> !Negative(x)
    ensures !Positive(x) && Denoted(x) == 0 && x.Big? ==> Negative(x)
    ensures Trimmed(x) ==> !NegativeZero(x)
  {
    TrimmedBounds(x);
  }

  /** For which operands Euclidean division is exact: when the dividend is kept as the remainder ... */
  lemma {:induction false} KeptCases(x: Integer, y: Integer)
    requires Ok(x) && Ok(y) && !Positive(x) && KeepsDividend(x, y) && !(y.Small? && Denoted(y) == 0)
    ensures Decided(x, y) <==> Abs(Denoted(x)) <= Abs(Denoted(y))
    ensures Negative(x) ==> (EuclideanExact(x, y) <==> Denoted(x) < 0 && Abs(Denoted(x)) <= Abs(Denoted(y)))
    ensures !Negative(x) ==> Denoted(x) == 0 && (EuclideanExact(x, y) <==> Denoted(y) != 0)
  {
    hide Size, Pow, Unboxed;
    NotNegative(x);
    TrimmedBounds(y);
    TrimmedDecided(x, y);
  }

  /** ... and when it is not. */
  lemma {:induction false} DividedCases(x: Integer, y: Integer)
    requires Ok(x) && Ok(y) && !Positive(x) && !KeepsDividend(x, y) && (Trimmed(y) || !Above(x, y))
    ensures EuclideanExact(x, y) <==> Divisible(x, y)
    ensures !Divisible(x, y) ==> Denoted(y) == 0 && !Trimmed(y)
  {
    hide Size, Pow, Unboxed;
  }

  /** Correcting a remainder is right exactly for negative remainders, when the arithmetic is. */
  lemma {:induction false} Corrected(x: int, y: int, d: int, m: int, yneg: bool, m': int)
    requires x == d * y + m && if yneg then y <= 0 else y >= 0
    ensures Euclidean(x, y, if yneg then d + 1 else d - 1, m') <==> m' == m + Abs(y) && -(Abs(y) as int) <= m < 0
  {
    assert (d + 1) * y == d * y + y && (d - 1) * y == d * y - y;
  }

  lemma {:induction false} NonPositiveCases(x: Integer, y: Integer)
    requires Ok(x) && Ok(y) && !Positive(x) && !(y.Small? && Denoted(y) == 0)
    ensures Denoted(x) <= 0 && !Negative(ZERO)
    ensures KeepsDividend(x, y) ==> !Above(x, y) && (Decided(x, y) <==> Abs(Denoted(x)) <= Abs(Denoted(y)))
    ensures KeepsDividend(x, y) && Negative(x) ==> (EuclideanExact(x, y) <==> Denoted(x) < 0 && Abs(Denoted(x)) <= Abs(Denoted(y)))
    ensures KeepsDividend(x, y) && !Negative(x) ==> Denoted(x) == 0 && (EuclideanExact(x, y) <==> Denoted(y) != 0)
    ensures !KeepsDividend(x, y) && (Trimmed(y) || !Above(x, y)) ==>
      (EuclideanExact(x, y) <==> Divisible(x, y)) && (!Divisible(x, y) ==> Denoted(y) == 0 && !Trimmed(y))
    ensures EuclideanExact(x, y) ==> Trimmed(y) || !Above(x, y)
  {
    hide Size, Pow, Unboxed, Below, Above, Divisible, EuclideanExact, KeepsDividend, Decided, Trimmed, Boxed;
    if KeepsDividend(x, y) {
      KeptCases(x, y);
    } else if Trimmed(y) || !Above(x, y) {
      DividedCases(x, y);
    }
    ExactIsDefined(x, y);
    NotNegative(x);
    ZeroIsNotNegative();
  }

  method DivModNonPositive(x: Integer, y: Integer) returns (defined: bool, d: Integer, m: Integer)
    requires Ok(x) && Ok(y) && Owned(x, y) && !(y.Small? && Denoted(y) == 0) && !Positive(x)
    modifies Objects(x), Objects(y)
    ensures defined <==> old(Trimmed(y) || !Above(x, y))
    ensures defined ==> Ok(d) && Ok(m) && (old(Trimmed(x) && Trimmed(y)) ==> Trimmed(d) && Trimmed(m))
    ensures defined && Euclidean(old(Denoted(x)), old(Denoted(y)), Denoted(d), Denoted(m)) <==> old(EuclideanExact(x, y))
    ensures Kept(x, Uses(x, y)) && Kept(y, Uses(x, y))
  {
    hide Val, Pow, AllDigits, IsBig, Unboxed, IsInteger, IsSmall, Boxed, InSmall, Truncated, Euclidean, Above, Below,
      Divisible, EuclideanExact, KeepsDividend, Size, Length, Normal;
    ghost var vx, keeps, exact := Denoted(x), KeepsDividend(x, y), EuclideanExact(x, y);
    NonPositiveCases(x, y);
    defined, d, m := CdivCmodKept(x, y);
    if defined {
      d, m := Correct(d, m, y, vx, keeps, exact);
    }
  }

  /** The correction of the quotient and remainder of a division towards zero, of a dividend `vx` that
      is not positive. */
  method Correct(d0: Integer, m0: Integer, y: Integer, ghost vx: int, ghost keeps: bool, ghost exact: bool) returns (d: Integer, m: Integer)
    requires Ok(d0) && Ok(m0) && Ok(y) && Objects(d0) !! Objects(m0) && Objects(d0) !! Objects(y) && Objects(m0) !! Objects(y)
    requires vx <= 0 && (Negative(m0) ==> Trimmed(d0))
    requires keeps ==> Denoted(d0) == 0 && Denoted(m0) == vx && (Decided(m0, y) <==> Abs(vx) <= Abs(Denoted(y)))
    requires keeps && Negative(m0) ==> (exact <==> vx < 0 && Abs(vx) <= Abs(Denoted(y)))
    requires keeps && !Negative(m0) ==> vx == 0 && (exact <==> Denoted(y) != 0)
    requires !keeps ==> Trimmed(m0) && (exact <==> Truncated(vx, Denoted(y), Denoted(d0), Denoted(m0)))
    requires !keeps && !exact ==> Denoted(y) == 0
    requires !keeps && Negative(m0) ==> exact && Trimmed(y)
    modifies Objects(d0), Objects(m0), Objects(y)
    ensures old(Trimmed(d0) && Trimmed(m0) && Trimmed(y)) ==> Trimmed(d) && Trimmed(m)
    ensures Ok(d) && Ok(m) && (Euclidean(vx, old(Denoted(y)), Denoted(d), Denoted(m)) <==> exact)
    ensures Kept(d0, 1) && Kept(m0, 1) && Kept(y, 1)
  {
    hide Val, Pow, AllDigits, IsBig, Unboxed, IsInteger, IsSmall, Boxed, InSmall, Truncated, Euclidean, Size, Length, Normal, Decided;
    d, m := d0, m0;
    NotNegative(m);
    NotNegative(y);
    TrimmedDecided(m, y);
    RemainderFacts(vx, Denoted(y), Denoted(d), Denoted(m));
    var mneg := IsNegative(m);
    if mneg {
      ghost var vy, d1, m1, yneg := Denoted(y), Denoted(d), Denoted(m), Negative(y);
      d, m := Adjust(d, m, y);
      Corrected(vx, vy, d1, m1, yneg, Denoted(m));
    }
    DropInteger(y);
  }

  lemma RemainderFacts(x: int, y: int, d: int, m: int)
    ensures Truncated(x, y, d, m) ==> x == d * y + m && Abs(m) < Abs(y) && (x <= 0 ==> m <= 0)
    ensures Truncated(x, y, d, m) && m == 0 ==> Euclidean(x, y, d, m)
    ensures d == 0 && m == x ==> x == d * y + m
    ensures x == d == m == 0 && y != 0 ==> Euclidean(x, y, d, m)
    ensures y == 0 ==> !Euclidean(x, y, d, m)
  {
  }

  lemma {:induction false} ExactIsDefined(x: Integer, y: Integer)
    requires Ok(x) && Ok(y)
    ensures EuclideanExact(x, y) ==> Trimmed(y) || !Above(x, y)
    ensures KeepsDividend(x, y) ==> !Above(x, y)
  {
    hide Size, Pow, Unboxed;
  }

  /** Division rounding towards zero that leaves a reference to `y`. */
  method CdivCmodKept(x: Integer, y: Integer) returns (defined: bool, d: Integer, m: Integer)
    requires Ok(x) && Ok(y) && Owned(x, y) && !(y.Small? && Denoted(y) == 0)
    modifies Objects(x), Objects(y)
    ensures defined <==> old(Trimmed(y) || !Above(x, y))
    ensures Ok(y) && Denoted(y) == old(Denoted(y)) && Size(y) == old(Size(y)) && Negative(y) == old(Negative(y)) && Trimmed(y) == old(Trimmed(y))
    ensures defined ==> Ok(d) && Ok(m) && (old(Trimmed(x)) ==> Trimmed(d) && Trimmed(m))
    ensures defined && Truncated(old(Denoted(x)), old(Denoted(y)), Denoted(d), Denoted(m)) <==> old(Divisible(x, y))
    ensures old(KeepsDividend(x, y)) && defined ==>
      Denoted(d) == 0 && Denoted(m) == old(Denoted(x)) && Size(m) == old(Size(x)) && Negative(m) == old(Negative(x))
    ensures defined && !old(KeepsDividend(x, y)) ==> Trimmed(m)
    ensures defined && !old(KeepsDividend(x, y)) && !old(Trimmed(y)) ==> m == ZERO
    ensures defined && Negative(m) ==> Trimmed(d)
    ensures defined ==> Objects(d) !! Objects(m) && Objects(d) !! Objects(y) && Objects(m) !! Objects(y)
    ensures defined ==> (d.Big? ==> fresh(d.x) || d.x in Objects(x)) && (m.Big? ==> fresh(m.x) || m.x in Objects(x))
    ensures m.Big? && m.x in Objects(x) ==> m.x.rc == old(m.x.rc)
    ensures d.Big? && d.x in Objects(x) ==> d.x.rc == old(d.x.rc)
    ensures Kept(x, Uses(x, y)) && (y.Big? ==> !y.x.freed && y.x.Same() && (defined && old(y.x.rc) >= Uses(x, y) ==> y.x.rc == old(y.x.rc) + 1 - Uses(x, y)))
  {
    hide Val, Pow, AllDigits, IsBig, Unboxed, IsInteger, IsSmall, Boxed, InSmall, Truncated, Normal, Length, Size;
    ZeroIsOk();
    ZeroIsNotNegative();
    DupInteger(y, x);
    defined, d, m := CdivCmodGeneric(x, y, ZERO);
  }

  lemma ZeroIsNotNegative()
    ensures !Negative(ZERO)
  {
    BoxUnbox(0);
  }

  /** A negative remainder is made positive. */
  method Adjust(d: Integer, m: Integer, y: Integer) returns (d': Integer, m': Integer)
    requires Ok(d) && Ok(m) && Ok(y) && Objects(d) !! Objects(m) && Objects(d) !! Objects(y) && Objects(m) !! Objects(y)
    requires Trimmed(d) && Negative(m)
    modifies Objects(d), Objects(m), Objects(y)
    ensures Ok(d') && Ok(m') && Objects(d') !! Objects(y) && Objects(m') !! Objects(y) && Ok(y)
    ensures Trimmed(d') && (old(Trimmed(m) && Trimmed(y)) ==> Trimmed(m'))
    ensures Denoted(d') == if old(Negative(y)) then old(Denoted(d)) + 1 else old(Denoted(d)) - 1
    ensures Denoted(m') == (if old(Negative(y)) then old(Denoted(m)) - old(Denoted(y)) else old(Denoted(m)) + old(Denoted(y))) <==>
      old(Decided(m, y))
    ensures Kept(d, 1) && Kept(m, 1) && (y.Big? ==> !y.x.freed && y.x.Same() && y.x.rc == old(y.x.rc))
  {
    hide Val, Pow, AllDigits, IsBig, Unboxed, IsInteger, IsSmall, Boxed, Length, Size, Decided, Trimmed;
    FastOne();
    var yneg := IsNegative(y);
    d' := AddSmallConst(d, if yneg then 1 else -1);
    m' := AdjustRemainder(m, y, yneg);
  }

  method AdjustRemainder(m: Integer, y: Integer, yneg: bool) returns (m': Integer)
    requires Ok(m) && Ok(y) && Objects(m) !! Objects(y) && Negative(m) && yneg == Negative(y)
    modifies Objects(m), Objects(y)
    ensures Ok(m') && Objects(m') !! Objects(y) && Ok(y) && (m'.Big? ==> fresh(m'.x) || m'.x in Objects(m))
    ensures old(Trimmed(m) && Trimmed(y)) ==> Trimmed(m')
    ensures Denoted(m') == (if yneg then old(Denoted(m)) - old(Denoted(y)) else old(Denoted(m)) + old(Denoted(y))) <==> old(Decided(m, y))
    ensures Kept(m, 1) && (y.Big? ==> !y.x.freed && y.x.Same() && y.x.rc == old(y.x.rc))
  {
    hide Val, Pow, AllDigits, IsBig, Unboxed, IsInteger, IsSmall, Boxed, Length, Size;
    DupInteger(y, m);
    if yneg {
      m' := SubInteger(m, y);
    } else {
      m' := AddInteger(m, y);
    }
  }

  // ------- division of small numbers -------

  /** Machine division, which rounds towards zero. */
  function CDiv(i: int, j: int): int
    requires j != 0
  {
    var q: int := DivD(Abs(i), Abs(j));
    if (i < 0) != (j < 0) then -q else q
  }

  function CMod(i: int, j: int): int
    requires j != 0
  {
    var r: int := ModD(Abs(i), Abs(j));
    if i < 0 then -r else r
  }

  lemma MachineDivision(i: int, j: int)
    requires j != 0
    ensures Truncated(i, j, CDiv(i, j), CMod(i, j))
    ensures Abs(CDiv(i, j)) * Abs(j) <= Abs(i)
  {
    hide Truncated, DivD, ModD;
    DivModD(Abs(i), Abs(j), 0);
    SignedDivision(i < 0, Abs(i), j < 0, Abs(j), DivD(Abs(i), Abs(j)), ModD(Abs(i), Abs(j)));
  }

  /** Euclidean division of small numbers; the quotient is a small number again except for the
      smallest number divided by -1. */
  method DivModSmall(x: int, y: int) returns (d: int, m: int)
    requires IsInteger(x) && IsInteger(y) && IsSmall(x) && IsSmall(y) && Unboxed(y) != 0
    ensures Euclidean(Unboxed(x), Unboxed(y), d, m) && InSmall(m)
    ensures InSmall(d) <==> !(Unboxed(x) == -(SMALL_MAX as int) - 1 && Unboxed(y) == -1)
  {
    hide CDiv, CMod, IsInteger;
    SmallOperands(x, y);
    var i := Unboxed(x);
    var j := Unboxed(y);
    d := CDiv(i, j);
    m := CMod(i, j);
    MachineDivision(i, j);
    ToEuclidean(i, j, d, m);
    QuotientRange(i, j, d, m);
    if i < 0 && m < 0 {
      if j < 0 {
        d := d + 1;
        m := m - j;
      } else {
        d := d - 1;
        m := m + j;
      }
    }
  }

  lemma SmallOperands(x: int, y: int)
    requires IsInteger(x) && IsInteger(y) && IsSmall(x) && IsSmall(y)
    ensures InSmall(Unboxed(x)) && InSmall(Unboxed(y)) && SMALL_MAX >= 1
  {
    MachineFacts();
  }

  lemma QuotientRange(i: int, j: int, d: int, m: int)
    requires j != 0 && Truncated(i, j, d, m) && Abs(d) * Abs(j) <= Abs(i)
    ensures Abs(d) <= Abs(i)
    ensures Abs(j) > 1 ==> 2 * Abs(d) <= Abs(i)
    ensures j == -1 ==> d == -i && m == 0
    ensures j == 1 ==> d == i && m == 0
    ensures i >= 0 ==> m >= 0
  {
    MulAtLeast(Abs(d), Abs(d), Abs(j), 1);
    if Abs(j) > 1 {
      MulAtLeast(Abs(d), Abs(d), Abs(j), 2);
    }
  }
}
