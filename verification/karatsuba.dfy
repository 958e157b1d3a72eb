/** Karatsuba multiplication: three recursive products of half length instead of four. */
module Karatsuba {
  import opened Digits
  import opened BigInt

  function Min(a: nat, b: nat): nat {
    if a <= b then a else b
  }

  function Max(a: nat, b: nat): nat {
    if a >= b then a else b
  }

  /** The digits of `s` from `lo` to `hi`, both clamped to its length. */
  function Clamped(s: seq<nat>, lo: nat, hi: nat): seq<nat>
    requires lo <= hi || hi == |s|
  {
    s[Min(lo, |s|)..Min(hi, |s|)]
  }

  /** The digits of `x` from `lo` to `hi` as a number of at least one digit, without giving up a
      reference to `x`; but the first digits of a unique `x` are cut out in place. */
  method Slice(x: Bigint, lo: nat, hi: nat) returns (z: Bigint)
    requires x.Ok() && (lo <= hi || hi == x.count)
    modifies x
    ensures old(x.rc) > 0 || lo > 0 ==>
      && fresh(z) && x.Same() && x.rc == old(x.rc) && !x.freed
      && z.Ok() && z.rc == 0 && z.isNeg == x.isNeg
      && z.Abs() == Val(Clamped(x.digits[..x.count], lo, hi))
      && z.count == Max(1, Min(hi, x.count) - Min(lo, x.count))
    ensures old(x.rc) == 0 && lo == 0 && hi <= old(x.count) ==>
      z == x && z.Ok() && z.rc == 0 && z.isNeg == old(x.isNeg) && z.count == hi && z.digits[..hi] == old(x.digits[..hi])
  {
    hide Val, RoundupCount;
    if lo <= 0 && x.rc == 0 {
      if hi <= x.count + x.extra {
        if hi <= x.count {
          PrefixDigits(x.digits, x.count, hi);
        }
        TrimTo(x, hi, false);
      }
      return x;
    }
    ghost var s := x.digits[..x.count];
    var from, to := lo, hi;
    if from >= x.count { from := x.count; }
    if to > x.count { to := x.count; }
    var cz := to - from;
    z := Alloc(cz, x.isNeg);
    if cz == 0 {
      RoundupZero();
      z.digits := z.digits[0 := 0];
      z.count := 1;
      z.extra := z.extra - 1;
      ZeroDigit(z.digits[..1]);
      assert Clamped(s, lo, hi) == [];
      ValEmpty();
    } else if from < x.count {
      CutDigits(x.digits, x.count, lo, hi, z.digits[cz..]);
      z.digits := x.digits[from..to] + z.digits[cz..];
    }
  }

  lemma CutDigits(xs: seq<nat>, count: nat, lo: nat, hi: nat, rest: seq<nat>)
    requires count <= |xs| && AllDigits(xs[..count]) && (lo <= hi || hi == count) && Min(lo, count) <= Min(hi, count)
    ensures var from, to := Min(lo, count), Min(hi, count);
      (xs[from..to] + rest)[..to - from] == Clamped(xs[..count], lo, hi) && AllDigits((xs[from..to] + rest)[..to - from])
  {
    var from, to := Min(lo, count), Min(hi, count);
    var z := (xs[from..to] + rest)[..to - from];
    assert z == xs[from..to] == xs[..count][from..to];
    forall i | 0 <= i < |z| ensures Digit(z[i]) {
      assert z[i] == xs[..count][from + i];
    }
  }

  lemma ZeroDigit(s: seq<nat>)
    requires |s| == 1 && s[0] == 0
    ensures Val(s) == 0 && AllDigits(s)
  {
    ValZeros(s);
  }

  /** The number times BASE^n. */
  method ShiftLeft(x: Bigint, n: nat) returns (z: Bigint)
    requires x.Ok()
    modifies x
    ensures z.Ok() && z.rc == 0 && (fresh(z) || (z == x && old(x.rc) == 0))
    ensures z.isNeg == old(x.isNeg) && z.Abs() == Pow(n) * old(x.Abs())
    ensures z != x ==> x.GaveUp(1)
  {
    hide Val, Pow;
    var cx := x.count;
    ghost var s := x.digits[..cx];
    z := AllocReuse(x, cx + n);
    var moved := x.digits[..cx];
    assert moved == s;
    z.digits := z.digits[..n] + moved + z.digits[n + cx..];
    var zeros := seq(n, i => 0);
    z.digits := zeros + z.digits[n..];
    assert |zeros| == n && zeros + s == z.digits[..n + cx];
    ValConcat(zeros, s);
    ValZeros(zeros);
    assert forall i | 0 <= i < n + cx :: (zeros + s)[i] == if i < n then 0 else s[i - n];
    if z != x {
      Drop(x);
    }
  }

  /** Both halves make up the number. */
  lemma {:induction false} Halves(s: seq<nat>, n: nat)
    ensures Val(s) == Val(Clamped(s, 0, n)) + Pow(n) * Val(Clamped(s, n, |s|))
  {
    hide Val, Pow;
    if n <= |s| {
      ValSplit(s, n);
      assert Clamped(s, 0, n) == s[..n] && Clamped(s, n, |s|) == s[n..];
    } else {
      assert Clamped(s, 0, n) == s && Clamped(s, n, |s|) == [];
      ValEmpty();
    }
  }

  /** The three products determine the product. */
  lemma ThreeProducts(a: int, b: int, c: int, d: int, p: int, q: int)
    requires q == p * p
    ensures a * c + p * ((a + b) * (c + d) - a * c - b * d) + q * (b * d) == (a + p * b) * (c + p * d)
  {
    assert (a + b) * (c + d) - a * c - b * d == a * d + b * c;
    assert p * (a * d + b * c) == p * (a * d) + p * (b * c);
    assert (a + p * b) * (c + p * d) == a * c + a * (p * d) + p * b * c + p * b * (p * d);
    assert a * (p * d) == p * (a * d) by { Assoc(a, p, d); Assoc(p, a, d); }
    assert p * b * c == p * (b * c) by { Assoc(p, b, c); }
    assert p * b * (p * d) == p * p * (b * d) by { Shuffle(p, p, b, d); Assoc(p * p, b, d); Assoc(p, p, b); Assoc(p * b, p, d); Assoc(p, b, p); }
  }

  lemma MiddleTerm(a: nat, b: nat, c: nat, d: nat)
    ensures (a + b) * (c + d) >= a * c && (a + b) * (c + d) - a * c >= b * d
  {
    MulAtLeast(a, 0, d, 0);
    MulAtLeast(b, 0, c, 0);
    MulAtLeast(b, 0, d, 0);
    assert (a + b) * (c + d) == a * c + a * d + b * c + b * d;
  }

  twostate predicate Intact(x: Bigint)
    reads x
  {
    x.freed || x.Same()
  }

  method MulKaratsuba(x: Bigint, y: Bigint) returns (z: Bigint)
    requires x.Ok() && y.Ok() && (x == y ==> x.rc >= 1)
    modifies x, y
    ensures z.Ok() && z.rc == 0 && fresh(z) && Normal(z.digits[..z.count])
    ensures z.isNeg == (old(x.isNeg) != old(y.isNeg)) && z.Abs() == old(x.Abs()) * old(y.Abs())
    ensures Intact(x) && Intact(y)
    // for long numbers nothing is given up, and even a reference is added
    ensures Max(old(x.count), old(y.count)) <= 25 ==> if x == y then x.GaveUp(2) else x.GaveUp(1) && y.GaveUp(1)
    ensures Max(old(x.count), old(y.count)) > 25 ==> !x.freed && !y.freed && x.rc == old(x.rc) + (if x == y then 2 else 1) && y.rc == old(y.rc) + (if x == y then 2 else 1)
    decreases Max(x.count, y.count), 2
  {
    hide Val, Pow, AllDigits, Normal;
    var n := Max(x.count, y.count);
    if n <= 25 {
      z := Mul(x, y);
      return;
    }
    ghost var bound, xs, ys := n, x.digits[..x.count], y.digits[..y.count];
    n := (n + 1) / 2;
    Dup(x);
    var b := Slice(x, n, x.count);
    var a := Slice(x, 0, n);
    Dup(y);
    var d := Slice(y, n, y.count);
    var c := Slice(y, 0, n);
    Halves(xs, n);
    Halves(ys, n);
    z := FromHalves(a, b, c, d, n, bound);
  }

  /** (a + b * BASE^n) * (c + d * BASE^n), where all operands are shorter than `bound`. */
  method FromHalves(a: Bigint, b: Bigint, c: Bigint, d: Bigint, n: nat, ghost bound: nat) returns (z: Bigint)
    requires a != b && a != c && a != d && b != c && b != d && c != d
    requires a.Ok() && b.Ok() && c.Ok() && d.Ok() && a.rc == b.rc == c.rc == d.rc == 0
    requires a.isNeg == b.isNeg && c.isNeg == d.isNeg
    requires a.count <= n && b.count <= n && c.count <= n && d.count <= n && n + 1 < bound
    requires n > 0
    modifies a, b, c, d
    ensures z.Ok() && z.rc == 0 && fresh(z) && Normal(z.digits[..z.count])
    ensures z.isNeg == (old(a.isNeg) != old(c.isNeg))
    ensures z.Abs() == (old(a.Abs()) + Pow(n) * old(b.Abs())) * (old(c.Abs()) + Pow(n) * old(d.Abs()))
    decreases bound, 1
  {
    hide Val, Pow, AllDigits, Normal;
    ghost var va, vb, vc, vd := a.Abs(), b.Abs(), c.Abs(), d.Abs();
    MiddleTerm(va, vb, vc, vd);
    PowAdd(n, n);
    ThreeProducts(va, vb, vc, vd, Pow(n), Pow(2 * n));
    var ac := MulKept(a, c, bound);
    var bd := MulKept(b, d, bound);
    var abcd := MulSums(a, b, c, d, bound);
    z := Combine(ac, bd, abcd, n);
  }

  /** (a + b) * (c + d). */
  method MulSums(a: Bigint, b: Bigint, c: Bigint, d: Bigint, ghost bound: nat) returns (z: Bigint)
    requires a != b && a != c && a != d && b != c && b != d && c != d
    requires a.Ok() && b.Ok() && c.Ok() && d.Ok()
    requires a.isNeg == b.isNeg && c.isNeg == d.isNeg
    requires a.count + 1 < bound && b.count + 1 < bound && c.count + 1 < bound && d.count + 1 < bound
    modifies a, b, c, d
    ensures z.Ok() && z.rc == 0 && fresh(z) && Normal(z.digits[..z.count])
    ensures z.isNeg == (old(a.isNeg) != old(c.isNeg))
    ensures z.Abs() == (old(a.Abs()) + old(b.Abs())) * (old(c.Abs()) + old(d.Abs()))
    decreases bound, 0
  {
    hide Val, Pow, AllDigits, Normal, Proper;
    var ab := Add(a, b, b.isNeg);
    var cd := Add(c, d, d.isNeg);
    z := MulKaratsuba(ab, cd);
  }

  /** The product of two numbers that are still needed afterwards. */
  method MulKept(x: Bigint, y: Bigint, ghost bound: nat) returns (z: Bigint)
    requires x != y && x.Ok() && y.Ok() && x.count < bound && y.count < bound
    modifies x, y
    ensures z.Ok() && z.rc == 0 && fresh(z) && Normal(z.digits[..z.count])
    ensures z.isNeg == (old(x.isNeg) != old(y.isNeg)) && z.Abs() == old(x.Abs()) * old(y.Abs())
    ensures x.Ok() && x.Same() && y.Ok() && y.Same()
    decreases bound, 0
  {
    hide Val, Pow, AllDigits, Normal;
    Dup(x);
    Dup(y);
    z := MulKaratsuba(x, y);
  }

  /** ac + (abcd - ac - bd) * BASE^n + bd * BASE^(2n). */
  method Combine(ac: Bigint, bd: Bigint, abcd: Bigint, n: nat) returns (z: Bigint)
    requires ac != bd && ac != abcd && bd != abcd
    requires ac.Ok() && bd.Ok() && abcd.Ok() && ac.rc == bd.rc == abcd.rc == 0
    requires ac.isNeg == bd.isNeg == abcd.isNeg
    requires Normal(ac.digits[..ac.count]) && Normal(bd.digits[..bd.count]) && Normal(abcd.digits[..abcd.count])
    requires abcd.Abs() >= ac.Abs() && abcd.Abs() - ac.Abs() >= bd.Abs()
    modifies ac, bd, abcd
    ensures z.Ok() && z.rc == 0 && (fresh(z) || z == ac || z == bd || z == abcd) && Normal(z.digits[..z.count])
    ensures z.isNeg == old(ac.isNeg)
    ensures z.Abs() == old(ac.Abs()) + Pow(n) * (old(abcd.Abs()) - old(ac.Abs()) - old(bd.Abs())) + Pow(2 * n) * old(bd.Abs())
  {
    hide Val, Pow, AllDigits, Normal;
    var t := Middle(ac, bd, abcd);
    var p1 := ShiftLeft(t, n);
    var p2 := ShiftLeft(bd, 2 * n);
    var q := Add(ac, p1, p1.isNeg);
    z := Add(q, p2, p2.isNeg);
    Trim(z);
  }

  /** Without leading zeros a number that is not smaller is not shorter. */
  lemma NotShorter(x: Bigint, y: Bigint)
    requires x.Ok() && y.Ok() && Normal(x.digits[..x.count]) && Normal(y.digits[..y.count])
    ensures x.Abs() >= y.Abs() ==> x.count >= y.count
  {
    ComparableLonger(x.digits[..x.count], y.digits[..y.count]);
  }

  /** abcd - ac - bd. */
  method Middle(ac: Bigint, bd: Bigint, abcd: Bigint) returns (t: Bigint)
    requires ac != bd && ac != abcd && bd != abcd
    requires ac.Ok() && bd.Ok() && abcd.Ok() && ac.rc == bd.rc == abcd.rc == 0
    requires ac.isNeg == bd.isNeg == abcd.isNeg
    requires Normal(ac.digits[..ac.count]) && Normal(bd.digits[..bd.count]) && Normal(abcd.digits[..abcd.count])
    requires abcd.Abs() >= ac.Abs() && abcd.Abs() - ac.Abs() >= bd.Abs()
    modifies ac, bd, abcd
    ensures t.Ok() && t.rc == 0 && (fresh(t) || t == abcd) && t.isNeg == old(abcd.isNeg)
    ensures t.Abs() == old(abcd.Abs()) - old(ac.Abs()) - old(bd.Abs())
    ensures ac.Ok() && ac.Same() && ac.rc == 0 && bd.Ok() && bd.Same() && bd.rc == 0
  {
    hide Val, Pow, AllDigits, Normal, LongerNotSmaller, Excess;
    NotShorter(abcd, ac);
    Dup(ac);
    t := Sub(abcd, ac, ac.isNeg);
    NotShorter(t, bd);
    Dup(bd);
    t := Sub(t, bd, bd.isNeg);
  }
}
