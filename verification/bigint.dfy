/** Big integers: a sign and a buffer of digits with a reference count. Operations consume one
    reference of each argument and may reuse the storage of a unique argument. */
module BigInt {
  import opened Digits

  const MAX_EXTRA: nat := 16383

  /** Unsigned machine arithmetic on digits. */
  function Wrap(x: int): nat {
    x % WORD
  }

  lemma NoWrap(x: int)
    requires 0 <= x <= 2 * BASE + 1
    ensures Wrap(x) == x
  {
    ModUnique(x, 0, x);
  }

  lemma WrapAround(x: int)
    requires -(BASE as int) <= x < BASE
    ensures 0 <= x ==> Wrap(x) == x
    ensures x < 0 ==> Wrap(x) == x + WORD && Wrap(x) > BASE && Wrap(Wrap(x) + BASE) == x + BASE
  {
    if x < 0 {
      ModUnique(x, -1, x + WORD);
      ModUnique(x + WORD + BASE, 1, x + BASE);
    } else {
      ModUnique(x, 0, x);
    }
  }

  lemma ModUnique(x: int, q: int, r: int)
    requires x == q * WORD + r && 0 <= r < WORD
    ensures x % WORD == r
  {
    var q', r' := x / WORD, x % WORD;
    assert (q - q') * WORD == r' - r;
    if q != q' {
      if q > q' { MulAtLeast(q - q', 1, WORD, WORD); } else { MulAtLeast(q' - q, 1, WORD, WORD); }
    }
  }

  class Bigint {
    var count: nat       // digits in use
    var extra: nat       // digits available beyond that
    var isNeg: bool
    var digits: seq<nat> // the buffer
    var rc: nat          // references beyond the first
    var freed: bool

    ghost predicate Ok()
      reads this
    {
      !freed && count + extra <= |digits| && AllDigits(digits[..count])
    }

    ghost function Abs(): nat
      reads this
      requires count <= |digits|
    {
      Val(digits[..count])
    }

    ghost function Value(): int
      reads this
      requires count <= |digits|
    {
      if isNeg then -(Abs() as int) else Abs()
    }

    /** Another reference may be using this object: nobody may write to it. */
    twostate predicate Same()
      reads this
    {
      count == old(count) && extra == old(extra) && isNeg == old(isNeg) && digits == old(digits)
    }

    /** `n` references were given up; nothing was written while others remain. */
    twostate predicate GaveUp(n: nat)
      reads this
    {
      if old(rc) >= n then !freed && rc == old(rc) - n && Same() else freed
    }

    /** A fresh buffer of at least `n` digits with arbitrary contents. */
    constructor Alloc(n: nat, neg: bool, fill: seq<nat>)
      requires |fill| >= n
      ensures !freed && rc == 0 && isNeg == neg && count == n && extra == |fill| - n && digits == fill
    {
      count, extra, isNeg, digits, rc, freed := n, |fill| - n, neg, fill, 0, false;
    }

    function LastDigit(): nat
      reads this
      requires 0 < count <= |digits|
    {
      digits[count - 1]
    }

    /** The word before the first unused digit. Without digits that is some other word of the block. */
    method LastWord() returns (d: nat)
      requires Ok()
      ensures d < WORD && (count > 0 ==> d == LastDigit())
    {
      if count > 0 {
        d := digits[count - 1];
        assert d == digits[..count][count - 1];
      } else {
        var a := new nat[1];
        d := Wrap(a[0]);
      }
    }
  }

  method Dup(x: Bigint)
    requires !x.freed
    modifies x`rc
    ensures x.rc == old(x.rc) + 1
  {
    x.rc := x.rc + 1;
  }

  method Drop(x: Bigint)
    requires !x.freed
    modifies x`rc, x`freed
    ensures x.GaveUp(1)
  {
    if x.rc == 0 {
      x.freed := true;
    } else {
      x.rc := x.rc - 1;
    }
  }

  function RoundupCount(n: nat): (r: nat)
    ensures r >= n
  {
    if n * PLATFORM.bytes < 16 then 16 / PLATFORM.bytes
    else if n % 2 == 1 then n + 1
    else n
  }

  lemma RoundupZero()
    ensures RoundupCount(0) >= 2
  {
  }

  /** The digits that the allocator hands out: nothing is known about them. */
  method Uninitialized(n: nat) returns (s: seq<nat>)
    ensures |s| == n
  {
    var a := new nat[n];
    s := a[..];
  }

  method Alloc(n: nat, neg: bool) returns (z: Bigint)
    ensures fresh(z) && !z.freed && z.rc == 0 && z.isNeg == neg && z.count == n && n + z.extra == |z.digits| == RoundupCount(n)
  {
    var fill := Uninitialized(RoundupCount(n));
    z := new Bigint.Alloc(n, neg, fill);
  }

  /** The room that a number can have beyond its digits. */
  function Capped(n: int): int {
    if n > MAX_EXTRA then MAX_EXTRA else n
  }

  /** Set the count of a unique number; the buffer is reallocated only if too much is unused. */
  method TrimTo(x: Bigint, n: nat, allowRealloc: bool)
    requires !x.freed && x.rc == 0 && n <= x.count + x.extra <= |x.digits|
    modifies x
    ensures x.count == n && n + x.extra <= |x.digits| && x.digits[..n] == old(x.digits)[..n]
    ensures !x.freed && x.rc == 0 && x.isNeg == old(x.isNeg)
    ensures !allowRealloc ==> x.digits == old(x.digits) && x.extra == Capped(old(x.count + x.extra) - n)
  {
    var available := x.count + x.extra;
    var d := available - n;
    if d > MAX_EXTRA {
      if allowRealloc {
        var dcount := RoundupCount(n);
        if dcount <= available && available - dcount < 16 / PLATFORM.bytes {
          dcount := available;
        } else if dcount <= |x.digits| {
          x.digits := x.digits[..dcount];
        } else {
          var more := Uninitialized(dcount - |x.digits|);
          x.digits := x.digits + more;
        }
        x.extra := dcount - n;
      } else {
        x.extra := MAX_EXTRA;
      }
    } else {
      x.extra := d;
    }
    x.count := n;
  }

  /** Remove leading zeros. */
  method Trim(x: Bigint)
    requires x.Ok() && x.rc == 0
    modifies x
    ensures x.Ok() && x.rc == 0 && x.isNeg == old(x.isNeg)
    ensures x.Abs() == old(x.Abs()) && Normal(x.digits[..x.count])
  {
    var i := x.count;
    while i > 0 && x.digits[i - 1] == 0
      invariant 0 <= i <= x.count
      invariant forall k | i <= k < x.count :: x.digits[k] == 0
    {
      i := i - 1;
    }
    ghost var s := x.digits[..x.count];
    ValTrim(s, i);
    assert s[..i] == x.digits[..i];
    TrimTo(x, i, true);
  }

  /** The result buffer of an operation on `x`: `x` itself when it is unique and large enough. */
  method AllocReuse(x: Bigint, n: nat) returns (z: Bigint)
    requires !x.freed && x.count + x.extra <= |x.digits|
    modifies x
    ensures z == x || fresh(z)
    ensures z == x ==> old(x.rc) == 0 && x.digits == old(x.digits)
    ensures z != x ==> x.Same() && x.rc == old(x.rc)
    ensures !x.freed && !z.freed && z.rc == 0 && z.count == n && n + z.extra <= |z.digits| && z.isNeg == old(x.isNeg)
  {
    var d := x.count + x.extra - n;
    if 0 <= d <= MAX_EXTRA && x.rc == 0 {
      TrimTo(x, n, false);
      z := x;
    } else {
      z := Alloc(n, x.isNeg);
    }
  }

  // ------- addition of absolute values -------

  /** Storing digit `v` at position `i` extends the value of the prefix. */
  lemma StoreDigit(s: seq<nat>, i: nat, v: nat)
    requires i < |s| && AllDigits(s[..i]) && Digit(v)
    ensures AllDigits(s[i := v][..i + 1])
    ensures Val(s[i := v][..i + 1]) == Val(s[..i]) + v * Pow(i)
  {
    hide Val, Pow;
    var t := s[i := v];
    ValPrefix(t, i);
    assert t[..i] == s[..i] && t[..i + 1] == s[..i] + [v];
    var r := t[..i + 1];
    forall k | 0 <= k < |r| ensures Digit(r[k]) {
      assert k < i ==> r[k] == s[..i][k];
    }
  }

  /** One step of an addition with carry. */
  lemma AddStep(x: seq<nat>, y: int, z: seq<nat>, i: nat, carry: int, carry': int, v: nat, yv: int)
    requires i < |x| && i < |z| && AllDigits(z[..i]) && Digit(v)
    requires Val(z[..i]) + carry * Pow(i) == Val(x[..i]) + y
    requires v + carry' * BASE == x[i] + yv + carry
    ensures AllDigits(z[i := v][..i + 1])
    ensures Val(z[i := v][..i + 1]) + carry' * Pow(i + 1) == Val(x[..i + 1]) + y + yv * Pow(i)
  {
    hide Val, Pow, AllDigits;
    StoreDigit(z, i, v);
    ValPrefix(x, i);
    CarryAt(i, v, carry', x[i] + yv + carry);
    assert (x[i] + yv + carry) * Pow(i) == x[i] * Pow(i) + yv * Pow(i) + carry * Pow(i);
  }

  /** Writing position `i` leaves the tail after it as it was. */
  lemma TailAfter(s: seq<nat>, t: seq<nat>, i: nat, v: nat)
    requires i < |s| == |t| && s[i..] == t[i..]
    ensures s[i := v][i + 1..] == s[i + 1..] == t[i + 1..]
  {
    assert s[i..][1..] == s[i + 1..] && t[i..][1..] == t[i + 1..];
  }

  /** The untouched tail of an operand completes the value. */
  lemma SameTail(z: seq<nat>, x: seq<nat>, i: nat)
    requires |z| == |x| && i <= |x| && z[i..] == x[i..]
    ensures Val(z) - Val(z[..i]) == Val(x) - Val(x[..i])
  {
    ValSplit(z, i);
    ValSplit(x, i);
  }

  /** Add the first `n` digits of `x` and `y` into `z`, which may be `x` itself. */
  method AddDigits(x: Bigint, y: Bigint, z: Bigint, n: nat) returns (carry: nat)
    requires z != y && n <= |x.digits| && n <= |y.digits| && n <= |z.digits|
    requires AllDigits(x.digits[..n]) && AllDigits(y.digits[..n])
    modifies z`digits
    ensures |z.digits| == |old(z.digits)| && z.digits[n..] == old(z.digits)[n..]
    ensures AllDigits(z.digits[..n])
    ensures Val(z.digits[..n]) + carry * Pow(n) == Val(old(x.digits)[..n]) + Val(y.digits[..n])
    ensures carry <= 1 && (carry == 1 ==> n > 0 && old(x.digits)[n - 1] + y.digits[n - 1] + 1 >= BASE)
  {
    hide Val, Pow, Wrap;
    ghost var xs := x.digits;
    carry := 0;
    ValEmpty();
    for i := 0 to n
      invariant |z.digits| == |old(z.digits)| && z.digits[n..] == old(z.digits)[n..]
      invariant |x.digits| == |xs| && x.digits[i..] == xs[i..]
      invariant carry <= 1 && (carry == 1 ==> i > 0 && xs[i - 1] + y.digits[i - 1] + 1 >= BASE)
      invariant AllDigits(z.digits[..i])
      invariant Val(z.digits[..i]) + carry * Pow(i) == Val(xs[..i]) + Val(y.digits[..i])
    {
      assert x.digits[i] == xs[i] == xs[..n][i] && y.digits[i] == y.digits[..n][i];
      assert Digit(xs[i]) && Digit(y.digits[i]);
      NoWrap(x.digits[i] + y.digits[i] + carry);
      var sum := Wrap(x.digits[i] + y.digits[i] + carry);
      ghost var carry0 := carry;
      if sum >= BASE {
        carry := 1;
        sum := sum - BASE;
      } else {
        carry := 0;
      }
      AddStep(xs, Val(y.digits[..i]), z.digits, i, carry0, carry, sum, y.digits[i]);
      ValPrefix(y.digits, i);
      TailAfter(x.digits, xs, i, sum);
      z.digits := z.digits[i := sum];
    }
  }

  /** Add `carry` to the digits `xs` of `x` from `i0` on, as far as it goes. */
  method PropagateCarry(x: Bigint, z: Bigint, i0: nat, n: nat, carry0: nat, ghost xs: seq<nat>, ghost y: int)
      returns (i: nat, carry: nat)
    requires i0 <= n <= |x.digits| == |xs| && n <= |z.digits| && x.digits[i0..] == xs[i0..]
    requires AllDigits(xs[..n]) && AllDigits(z.digits[..i0]) && Digit(carry0)
    requires Val(z.digits[..i0]) + carry0 * Pow(i0) == Val(xs[..i0]) + y
    modifies z`digits
    ensures i0 <= i <= n && |z.digits| == |old(z.digits)| && z.digits[i..] == old(z.digits)[i..]
    ensures AllDigits(z.digits[..i])
    ensures Val(z.digits[..i]) + carry * Pow(i) == Val(xs[..i]) + y
    ensures Digit(carry) && (carry != 0 ==> i == n && if i == i0 then carry == carry0 else carry == 1 && xs[n - 1] + carry0 >= BASE)
  {
    hide Val, Pow, Wrap;
    i, carry := i0, carry0;
    while carry != 0 && i < n
      invariant i0 <= i <= n && |z.digits| == |old(z.digits)| && z.digits[i..] == old(z.digits)[i..]
      invariant |x.digits| == |xs| && x.digits[i..] == xs[i..]
      invariant AllDigits(z.digits[..i])
      invariant Val(z.digits[..i]) + carry * Pow(i) == Val(xs[..i]) + y
      invariant if i == i0 then carry == carry0 else carry <= 1 && (carry == 1 ==> xs[i - 1] + carry0 >= BASE && carry0 > 0)
      decreases n - i
    {
      assert x.digits[i] == xs[i] == xs[..n][i];
      assert Digit(xs[i]);
      NoWrap(x.digits[i] + carry);
      var sum := Wrap(x.digits[i] + carry);
      ghost var c := carry;
      if sum >= BASE {
        carry := 1;
        sum := sum - BASE;
      } else {
        carry := 0;
      }
      AddStep(xs, y, z.digits, i, c, carry, sum, 0);
      TailAfter(z.digits, old(z.digits), i, sum);
      TailAfter(x.digits, xs, i, sum);
      z.digits := z.digits[i := sum];
      i := i + 1;
    }
  }

  /** Copy the remaining digits of `x`, unless they are there already. */
  method CopyTail(x: Bigint, z: Bigint, i0: nat, n: nat, ghost xs: seq<nat>)
    requires i0 <= n <= |x.digits| == |xs| && n <= |z.digits| && x.digits[i0..] == xs[i0..]
    requires AllDigits(xs[..n]) && AllDigits(z.digits[..i0])
    modifies z`digits
    ensures |z.digits| == |old(z.digits)| && z.digits[n..] == old(z.digits)[n..]
    ensures AllDigits(z.digits[..n])
    ensures Val(z.digits[..n]) - Val(old(z.digits)[..i0]) == Val(xs[..n]) - Val(xs[..i0])
  {
    hide Val, Pow;
    ghost var zs := z.digits;
    if z != x {
      for i := i0 to n
        invariant |z.digits| == |zs| && z.digits[..i0] == zs[..i0] && z.digits[n..] == zs[n..]
        invariant forall k | i0 <= k < i :: z.digits[k] == xs[k]
      {
        assert x.digits[i] == xs[i0..][i - i0];
        z.digits := z.digits[i := x.digits[i]];
      }
    }
    ghost var zn, xn := z.digits[..n], xs[..n];
    assert forall k | i0 <= k < n :: xs[k] == xs[i0..][k - i0] && x.digits[k] == x.digits[i0..][k - i0];
    assert forall k | i0 <= k < n :: zn[k] == xn[k] && Digit(xn[k]);
    assert forall k | 0 <= k < i0 :: zn[k] == z.digits[..i0][k];
    assert zn[i0..] == xn[i0..];
    SameTail(zn, xn, i0);
    assert zn[..i0] == zs[..i0] && xn[..i0] == xs[..i0];
  }

  /** Whether adding the top digits may carry out of `cx` digits; without digits of `y` nothing does. */
  predicate MayOverflow(xs: seq<nat>, cx: nat, ys: seq<nat>, cy: nat)
    requires cy <= cx <= |xs| && cy <= |ys|
  {
    cy > 0 && xs[cx - 1] + ys[cy - 1] + 1 >= BASE
  }

  /** Add the `cy` digits of `y` to the `cx` digits of `x`, into `z`; returns the digits written. */
  method AddInto(x: Bigint, y: Bigint, z: Bigint, cx: nat, cy: nat) returns (n: nat)
    requires z != y && cy <= cx <= |x.digits| && cy <= |y.digits|
    requires AllDigits(x.digits[..cx]) && AllDigits(y.digits[..cy])
    requires (if MayOverflow(x.digits, cx, y.digits, cy) then cx + 1 else cx) <= |z.digits|
    modifies z`digits
    ensures |z.digits| == |old(z.digits)| && cx <= n <= |z.digits|
    ensures n <= if MayOverflow(old(x.digits), cx, y.digits, cy) then cx + 1 else cx
    ensures AllDigits(z.digits[..n]) && (n > cx ==> z.digits[cx] != 0)
    ensures Val(z.digits[..n]) == Val(old(x.digits)[..cx]) + Val(y.digits[..cy])
  {
    hide Val, Pow;
    ghost var xs, ys := x.digits, y.digits;
    PrefixDigits(xs, cx, cy);
    var carry := AddDigits(x, y, z, cy);
    n, carry := PropagateCarry(x, z, cy, cx, carry, xs, Val(ys[..cy]));
    CopyTail(x, z, n, cx, xs);
    n := cx;
    if carry != 0 {
      StoreDigit(z.digits, n, carry);
      z.digits := z.digits[n := carry];
      n := n + 1;
    }
  }

  lemma TopDigitsFit(xs: seq<nat>, ys: seq<nat>)
    requires xs != [] && ys != [] && AllDigits(xs) && AllDigits(ys)
    ensures var sum := xs[|xs| - 1] + ys[|ys| - 1] + 1; Wrap(sum) == sum
  {
    assert Digit(xs[|xs| - 1]) && Digit(ys[|ys| - 1]);
    NoWrap(xs[|xs| - 1] + ys[|ys| - 1] + 1);
  }

  /** |x| + |y|, for a number `x` of at least as many digits. */
  method AddAbs(x: Bigint, y: Bigint) returns (z: Bigint)
    requires x.Ok() && y.Ok() && x.count >= y.count && (x == y ==> x.rc >= 1)
    modifies x, y
    ensures z.Ok() && z.rc == 0 && (fresh(z) || (z == x && old(x.rc) == 0))
    ensures z.isNeg == old(x.isNeg) && z.Abs() == old(x.Abs()) + old(y.Abs()) && z.count <= old(x.count) + 1
    ensures Proper(old(x.digits[..x.count])) ==> Proper(z.digits[..z.count])
    ensures z != x && x != y ==> x.GaveUp(1)
    ensures x != y ==> y.GaveUp(1)
    ensures x == y ==> x.GaveUp(2)
  {
    hide Val, Pow;
    var cx, cy := x.count, y.count;
    var xd := x.LastWord();
    var yd := y.LastWord();
    if cy > 0 {
      TopDigitsFit(x.digits[..cx], y.digits[..cy]);
    }
    var cz := if Wrap(xd + yd + 1) >= BASE then cx + 1 else cx;
    z := AllocReuse(x, cz);
    ghost var xs := old(x.digits)[..cx];
    var n := AddInto(x, y, z, cx, cy);
    ghost var zs := z.digits[..n];
    SumProper(xs, zs);
    DropOperands(x, y, z);
    TrimTo(z, n, true);
  }

  lemma {:induction false} SumProper(xs: seq<nat>, zs: seq<nat>)
    requires AllDigits(zs) && |xs| <= |zs| <= |xs| + 1 && (|zs| > |xs| ==> zs[|xs|] != 0) && Val(zs) >= Val(xs)
    ensures Proper(xs) ==> Proper(zs)
  {
    if |xs| == |zs| && Normal(xs) {
      NotSmaller(xs, zs);
    }
  }

  /** Give up the operands of an operation with result `z`. */
  method DropOperands(x: Bigint, y: Bigint, z: Bigint)
    requires !x.freed && !y.freed && z != y && (x == y ==> x.rc >= 1)
    modifies x`rc, x`freed, y`rc, y`freed
    ensures x != y && z != x ==> x.GaveUp(1)
    ensures x != y ==> y.GaveUp(1)
    ensures x == y ==> x.GaveUp(2)
    ensures z.rc == old(z.rc) && z.freed == old(z.freed)
  {
    if z != x {
      Drop(x);
    }
    Drop(y);
  }

  lemma PrefixDigits(s: seq<nat>, n: nat, m: nat)
    requires m <= n <= |s| && AllDigits(s[..n])
    ensures AllDigits(s[..m])
  {
    forall i | 0 <= i < m ensures Digit(s[..m][i]) {
      assert Digit(s[..n][i]);
    }
  }

  // ------- subtraction of absolute values -------

  /** Subtract the first `n` digits of `y` from those of `x`, into `z`; borrows show as unsigned wrap-around. */
  method SubDigits(x: Bigint, y: Bigint, z: Bigint, n: nat) returns (borrow: int)
    requires z != y && n <= |x.digits| && n <= |y.digits| && n <= |z.digits|
    requires AllDigits(x.digits[..n]) && AllDigits(y.digits[..n])
    modifies z`digits
    ensures |z.digits| == |old(z.digits)| && z.digits[n..] == old(z.digits)[n..]
    ensures AllDigits(z.digits[..n]) && 0 <= borrow <= 1
    ensures Val(z.digits[..n]) - borrow * Pow(n) == Val(old(x.digits)[..n]) - Val(y.digits[..n])
  {
    hide Val, Pow, Wrap;
    ghost var xs := x.digits;
    borrow := 0;
    ValEmpty();
    for i := 0 to n
      invariant |z.digits| == |old(z.digits)| && z.digits[n..] == old(z.digits)[n..]
      invariant |x.digits| == |xs| && x.digits[i..] == xs[i..]
      invariant AllDigits(z.digits[..i]) && 0 <= borrow <= 1
      invariant Val(z.digits[..i]) - borrow * Pow(i) == Val(xs[..i]) - Val(y.digits[..i])
    {
      assert x.digits[i] == xs[i] == xs[..n][i] && y.digits[i] == y.digits[..n][i];
      assert Digit(xs[i]) && Digit(y.digits[i]);
      WrapAround(x.digits[i] - borrow - y.digits[i]);
      var diff := Wrap(x.digits[i] - borrow - y.digits[i]);
      ghost var borrow0 := borrow;
      if diff >= BASE {
        borrow := 1;
        diff := Wrap(diff + BASE);
      } else {
        borrow := 0;
      }
      AddStep(xs, -(Val(y.digits[..i]) as int), z.digits, i, -borrow0, -borrow, diff, -(y.digits[i] as int));
      ValPrefix(y.digits, i);
      TailAfter(x.digits, xs, i, diff);
      z.digits := z.digits[i := diff];
    }
  }

  /** Subtract `borrow` from the digits `xs` of `x` from `i0` on, as far as it goes. */
  method PropagateBorrow(x: Bigint, z: Bigint, i0: nat, n: nat, borrow0: int, ghost xs: seq<nat>, ghost y: int)
      returns (i: nat, borrow: int)
    requires i0 <= n <= |x.digits| == |xs| && n <= |z.digits| && x.digits[i0..] == xs[i0..]
    requires AllDigits(xs[..n]) && AllDigits(z.digits[..i0]) && 0 <= borrow0 <= 1
    requires Val(z.digits[..i0]) - borrow0 * Pow(i0) == Val(xs[..i0]) - y
    modifies z`digits
    ensures i0 <= i <= n && |z.digits| == |old(z.digits)| && z.digits[i..] == old(z.digits)[i..]
    ensures AllDigits(z.digits[..i])
    ensures Val(z.digits[..i]) - borrow * Pow(i) == Val(xs[..i]) - y
    ensures 0 <= borrow <= 1 && (borrow != 0 ==> i == n)
  {
    hide Val, Pow, Wrap;
    i, borrow := i0, borrow0;
    while borrow != 0 && i < n
      invariant i0 <= i <= n && |z.digits| == |old(z.digits)| && z.digits[i..] == old(z.digits)[i..]
      invariant |x.digits| == |xs| && x.digits[i..] == xs[i..]
      invariant AllDigits(z.digits[..i]) && 0 <= borrow <= 1
      invariant Val(z.digits[..i]) - borrow * Pow(i) == Val(xs[..i]) - y
      decreases n - i
    {
      assert x.digits[i] == xs[i] == xs[..n][i];
      assert Digit(xs[i]);
      WrapAround(x.digits[i] - borrow);
      var diff := Wrap(x.digits[i] - borrow);
      ghost var b := borrow;
      if diff >= BASE {
        diff := Wrap(diff + BASE);
      } else {
        borrow := 0;
      }
      AddStep(xs, -y, z.digits, i, -b, -borrow, diff, 0);
      TailAfter(z.digits, old(z.digits), i, diff);
      TailAfter(x.digits, xs, i, diff);
      z.digits := z.digits[i := diff];
      i := i + 1;
    }
  }

  /** What a subtraction of `y` from `x` in `n` digits gives: a negative difference wraps around. */
  ghost function Difference(x: nat, y: nat, n: nat): int {
    x - y + if x < y then Pow(n) else 0
  }

  /** A final borrow means that the difference was negative. */
  lemma FinalBorrow(z: seq<nat>, borrow: int, x: nat, y: nat)
    requires AllDigits(z) && 0 <= borrow <= 1 && Val(z) - borrow * Pow(|z|) == x - y
    ensures borrow == 1 <==> x < y
    ensures Val(z) == Difference(x, y, |z|)
  {
    ValBound(z);
  }

  method SubInto(x: Bigint, y: Bigint, z: Bigint, cx: nat, cy: nat)
    requires z != y && cy <= cx <= |x.digits| && cy <= |y.digits| && cx <= |z.digits|
    requires AllDigits(x.digits[..cx]) && AllDigits(y.digits[..cy])
    modifies z`digits
    ensures |z.digits| == |old(z.digits)| && AllDigits(z.digits[..cx])
    ensures Val(z.digits[..cx]) == Difference(Val(old(x.digits)[..cx]), Val(y.digits[..cy]), cx)
  {
    hide Val, Pow, Difference;
    ghost var xs, ys := x.digits, y.digits;
    PrefixDigits(xs, cx, cy);
    var borrow := SubDigits(x, y, z, cy);
    var i;
    i, borrow := PropagateBorrow(x, z, cy, cx, borrow, xs, Val(ys[..cy]));
    if borrow == 0 {
      CopyTail(x, z, i, cx, xs);
    }
    FinalBorrow(z.digits[..cx], borrow, Val(xs[..cx]), Val(ys[..cy]));
  }

  /** |x| - |y|, for |x| >= |y| and `x` not shorter; a negative difference wraps around. */
  method SubAbs(x: Bigint, y: Bigint) returns (z: Bigint)
    requires x.Ok() && y.Ok() && x.count >= y.count && (x == y ==> x.rc >= 1)
    modifies x, y
    ensures z.Ok() && z.rc == 0 && (fresh(z) || (z == x && old(x.rc) == 0))
    ensures z.isNeg == old(x.isNeg) && z.Abs() == old(Difference(x.Abs(), y.Abs(), x.count)) && Normal(z.digits[..z.count])
    ensures z != x && x != y ==> x.GaveUp(1)
    ensures x != y ==> y.GaveUp(1)
    ensures x == y ==> x.GaveUp(2)
  {
    hide Val, Pow, Difference;
    var cx, cy := x.count, y.count;
    z := AllocReuse(x, cx);
    SubInto(x, y, z, cx, cy);
    DropOperands(x, y, z);
    Trim(z);
  }

  // ------- comparison -------

  function Sign(n: int): int {
    if n > 0 then 1 else if n < 0 then -1 else 0
  }

  /** The lengths come first, so the result is the sign of |x| - |y| if and only if a longer number
      is also a larger one. */
  method CompareAbs(x: Bigint, y: Bigint) returns (r: int)
    requires x.Ok() && y.Ok()
    ensures r == if x.count != y.count then Sign(x.count - y.count) else Sign(x.Abs() - y.Abs())
    ensures r == Sign(x.Abs() - y.Abs()) <==>
      (x.count > y.count ==> x.Abs() > y.Abs()) && (x.count < y.count ==> x.Abs() < y.Abs())
  {
    hide Val, Pow;
    var cx, cy := x.count, y.count;
    ghost var xs, ys := x.digits[..cx], y.digits[..cy];
    if cx > cy {
      return 1;
    }
    if cx < cy {
      return -1;
    }
    var i := cx;
    while i > 0
      invariant 0 <= i <= cx && xs[i..] == ys[i..]
    {
      i := i - 1;
      assert xs[i] == x.digits[i] && ys[i] == y.digits[i];
      if x.digits[i] != y.digits[i] {
        if x.digits[i] > y.digits[i] {
          TopDigitDecides(ys, xs, i);
          return 1;
        } else {
          TopDigitDecides(xs, ys, i);
          return -1;
        }
      }
    }
    assert xs == xs[0..] == ys[0..] == ys;
    return 0;
  }

  // ------- signed addition and subtraction -------

  /** The number with more digits is not the smaller one. */
  ghost predicate LongerNotSmaller(s: seq<nat>, t: seq<nat>) {
    (|s| < |t| ==> Val(s) <= Val(t)) && (|t| < |s| ==> Val(t) <= Val(s))
  }

  /** Without leading zeros it never is. */
  lemma {:induction false} ComparableLonger(s: seq<nat>, t: seq<nat>)
    requires AllDigits(s) && AllDigits(t) && Comparable(s, t)
    ensures LongerNotSmaller(s, t)
    ensures (|s| < |t| ==> Val(s) < Val(t)) && (|t| < |s| ==> Val(t) < Val(s))
  {
    hide Val, Pow;
    if |s| < |t| {
      LongerIsLarger(s, t);
    } else if |t| < |s| {
      LongerIsLarger(t, s);
    }
  }

  /** What is computed beyond |x| - |y|, when the shorter number is subtracted from the longer one. */
  ghost function Excess(s: seq<nat>, t: seq<nat>): int {
    if LongerNotSmaller(s, t) then 0 else if |s| > |t| then Pow(|s|) else -(Pow(|t|) as int)
  }

  lemma ExcessOf(s: seq<nat>, t: seq<nat>)
    ensures Excess(s, t) == 0 <==> LongerNotSmaller(s, t)
    ensures Val(s) >= Val(t) ==> Difference(Val(s), Val(t), |s|) == Val(s) - Val(t)
    ensures |s| >= |t| && (|s| == |t| ==> Val(s) >= Val(t)) ==> Difference(Val(s), Val(t), |s|) == Val(s) - Val(t) + Excess(s, t)
    ensures |s| <= |t| && (|s| == |t| ==> Val(s) <= Val(t)) ==> Difference(Val(t), Val(s), |t|) == Val(t) - Val(s) - Excess(s, t)
  {
  }

  ghost function Signed(neg: bool, abs: nat): int {
    if neg then -(abs as int) else abs
  }

  /** x + y, where `yneg` is the sign to use for `y`: exact for equal signs, and for different signs if
      and only if the number with more digits is not the smaller one. */
  method Add(x: Bigint, y: Bigint, yneg: bool) returns (z: Bigint)
    requires x.Ok() && y.Ok() && (x == y ==> x.rc >= 1)
    modifies x, y
    ensures z.Ok() && z.rc == 0
    ensures fresh(z) || (z == x && old(x.rc) == 0) || (z == y && old(y.rc) == 0)
    ensures z.Value() == old(x.Value()) + Signed(yneg, old(y.Abs())) <==>
      (old(x.isNeg) != yneg ==> LongerNotSmaller(old(x.digits[..x.count]), old(y.digits[..y.count])))
    ensures z.Value() == old(x.Value()) + Signed(yneg, old(y.Abs())) +
      if old(x.isNeg) == yneg then 0 else SignedInt(!yneg, Excess(old(x.digits[..x.count]), old(y.digits[..y.count])))
    ensures old(x.isNeg) != yneg ==> Normal(z.digits[..z.count])
    ensures Proper(old(x.digits[..x.count])) && Proper(old(y.digits[..y.count])) ==> Proper(z.digits[..z.count])
    ensures old(x.isNeg) == yneg ==> z.isNeg == yneg && z.Abs() == old(x.Abs()) + old(y.Abs())
    ensures old(x.isNeg) == yneg ==> z.count <= (if old(x.count) < old(y.count) then old(y.count) else old(x.count)) + 1
    ensures x != y ==> (z == x || x.GaveUp(1)) && (z == y || y.GaveUp(1))
    ensures x == y ==> z != x && x.GaveUp(2)
    decreases if x.isNeg != yneg then 1 else 0
  {
    hide Val, Pow, AllDigits, Normal, LongerNotSmaller, Excess;
    if x.isNeg != yneg {
      z := Sub(x, y, !yneg);
      return;
    }
    if x.count < y.count {
      z := AddAbs(y, x);
    } else {
      z := AddAbs(x, y);
    }
    z.isNeg := yneg;
  }

  function SignedInt(neg: bool, n: int): int {
    if neg then -n else n
  }

  /** x - y, where `yneg` is the sign to use for `y`: exact for different signs, and for equal signs if
      and only if the number with more digits is not the smaller one. */
  method Sub(x: Bigint, y: Bigint, yneg: bool) returns (z: Bigint)
    requires x.Ok() && y.Ok() && (x == y ==> x.rc >= 1)
    modifies x, y
    ensures z.Ok() && z.rc == 0
    ensures fresh(z) || (z == x && old(x.rc) == 0) || (z == y && old(y.rc) == 0)
    ensures z.Value() == old(x.Value()) - Signed(yneg, old(y.Abs())) <==>
      (old(x.isNeg) == yneg ==> LongerNotSmaller(old(x.digits[..x.count]), old(y.digits[..y.count])))
    ensures z.Value() == old(x.Value()) - Signed(yneg, old(y.Abs())) +
      if old(x.isNeg) != yneg then 0 else SignedInt(yneg, Excess(old(x.digits[..x.count]), old(y.digits[..y.count])))
    ensures old(x.isNeg) == yneg ==> Normal(z.digits[..z.count])
    ensures Proper(old(x.digits[..x.count])) && Proper(old(y.digits[..y.count])) ==> Proper(z.digits[..z.count])
    ensures old(x.isNeg) == yneg && old(x.count) >= old(y.count) && old(x.Abs()) >= old(y.Abs()) ==>
      z.isNeg == yneg && z.Abs() == old(x.Abs()) - old(y.Abs())
    ensures x != y ==> (z == x || x.GaveUp(1)) && (z == y || y.GaveUp(1))
    ensures x == y ==> z != x && x.GaveUp(2)
    decreases if x.isNeg != yneg then 1 else 0
  {
    hide Val, Pow, AllDigits, LongerNotSmaller, Excess, Difference;
    if x.isNeg != yneg {
      z := Add(x, y, !yneg);
      return;
    }
    ExcessOf(x.digits[..x.count], y.digits[..y.count]);
    var cmp := CompareAbs(x, y);
    if cmp >= 0 {
      z := SubAbs(x, y);
    } else {
      z := SubAbs(y, x);
      z.isNeg := !yneg;
    }
  }

  // ------- multiplication -------

  /** One product term: `z[k]` takes the remainder and `z[k + 1]` the carry of `dx * dy + z[k]`. */
  lemma MulStep(z: seq<nat>, k: nat, rem: nat, carry: nat, dx: nat, dy: nat)
    requires k + 1 < |z| && dx * dy + z[k] == carry * BASE + rem
    ensures Val(z[k := rem][k + 1 := z[k + 1] + carry]) == Val(z) + dx * dy * Pow(k)
  {
    var z1 := z[k := rem];
    ValUpdate(z, k, rem);
    ValUpdate(z1, k + 1, z[k + 1] + carry);
    CarryAt(k, rem - z[k], carry, dx * dy);
  }

  /** The product so far, after `j` digits of `y` in row `i`. */
  lemma RowStep(x: seq<nat>, y: seq<nat>, i: nat, j: nat)
    requires i < |x| && j < |y|
    ensures x[i] * y[j] * Pow(i + j) + Val(y[..j]) * (x[i] * Pow(i)) == Val(y[..j + 1]) * (x[i] * Pow(i))
  {
    hide Val, Pow;
    ValPrefix(y, j);
    PowAdd(i, j);
    var a, b, p, q, v := x[i], y[j], Pow(i), Pow(j), Val(y[..j]);
    calc {
      (v + b * q) * (a * p);
      v * (a * p) + b * q * (a * p);
      { assert b * q * (a * p) == a * b * (p * q) by { Shuffle(a, b, p, q); } }
      v * (a * p) + a * b * (p * q);
    }
  }

  lemma Shuffle(a: int, b: int, p: int, q: int)
    ensures b * q * (a * p) == a * b * (p * q)
  {
    calc {
      b * q * (a * p);
      { Assoc(b * q, a, p); }
      b * q * a * p;
      { Assoc(b, q, a); Assoc(b, a, q); }
      b * a * q * p;
      { Assoc(b * a, q, p); }
      a * b * (p * q);
    }
  }

  /** x * y, schoolbook. */
  method Mul(x: Bigint, y: Bigint) returns (z: Bigint)
    requires x.Ok() && y.Ok() && (x == y ==> x.rc >= 1)
    modifies x, y
    ensures z.Ok() && z.rc == 0 && fresh(z) && Normal(z.digits[..z.count])
    ensures z.isNeg == (old(x.isNeg) != old(y.isNeg)) && z.Abs() == old(x.Abs()) * old(y.Abs())
    ensures x != y ==> x.GaveUp(1) && y.GaveUp(1)
    ensures x == y ==> x.GaveUp(2)
  {
    hide Val, Pow, Wrap, DivD, ModD;
    var cx, cy := x.count, y.count;
    z := Alloc(cx + cy, x.isNeg != y.isNeg);
    z.digits := seq(|z.digits|, i => 0);
    MulInto(x, y, z, cx, cy);
    DropOperands(x, y, z);
    Trim(z);
  }

  method MulInto(x: Bigint, y: Bigint, z: Bigint, cx: nat, cy: nat)
    requires z != x && z != y && cx <= |x.digits| && cy <= |y.digits| && cx + cy <= |z.digits|
    requires AllDigits(x.digits[..cx]) && AllDigits(y.digits[..cy])
    requires forall k | 0 <= k < |z.digits| :: z.digits[k] == 0
    modifies z`digits
    ensures |z.digits| == |old(z.digits)| && AllDigits(z.digits[..cx + cy])
    ensures Val(z.digits[..cx + cy]) == Val(x.digits[..cx]) * Val(y.digits[..cy])
  {
    hide Val, Pow;
    var n := cx + cy;
    ValZeros(z.digits);
    ValEmpty();
    assert x.digits[..0] == [];
    for i := 0 to cx
      invariant |z.digits| == |old(z.digits)| && AllDigits(z.digits)
      invariant forall k | i + cy <= k < |z.digits| :: z.digits[k] == 0
      invariant Val(z.digits) == Val(x.digits[..i]) * Val(y.digits[..cy])
    {
      MulRow(x, y, z, i, cx, cy);
      ValPrefix(x.digits, i);
      RowDone(Val(x.digits[..i]), x.digits[i], Pow(i), Val(y.digits[..cy]));
    }
    ValTrim(z.digits, n);
  }

  lemma RowDone(v: int, d: int, p: int, y: int)
    ensures v * y + y * (d * p) == (v + d * p) * y
  {
  }

  method MulRow(x: Bigint, y: Bigint, z: Bigint, i: nat, cx: nat, cy: nat)
    requires z != x && z != y && i < cx <= |x.digits| && cy <= |y.digits| && cx + cy <= |z.digits|
    requires AllDigits(x.digits[..cx]) && AllDigits(y.digits[..cy]) && AllDigits(z.digits)
    requires forall k | i + cy <= k < |z.digits| :: z.digits[k] == 0
    modifies z`digits
    ensures |z.digits| == |old(z.digits)| && AllDigits(z.digits)
    ensures forall k | i + cy + 1 <= k < |z.digits| :: z.digits[k] == 0
    ensures Val(z.digits) == Val(old(z.digits)) + Val(y.digits[..cy]) * (x.digits[i] * Pow(i))
  {
    hide Val, Pow, DivD, ModD, Wrap;
    var dx := x.digits[i];
    assert dx == x.digits[..cx][i] && Digit(dx);
    ValEmpty();
    assert y.digits[..0] == [];
    for j := 0 to cy
      invariant |z.digits| == |old(z.digits)|
      invariant forall k | 0 <= k < |z.digits| && k != i + j :: Digit(z.digits[k])
      invariant z.digits[i + j] <= 2 * (BASE - 1) && (j == cy ==> Digit(z.digits[i + j]))
      invariant forall k | i + cy + (if j == cy then 1 else 0) <= k < |z.digits| :: z.digits[k] == 0
      invariant Val(z.digits) == Val(old(z.digits)) + Val(y.digits[..j]) * (dx * Pow(i))
    {
      var dy := y.digits[j];
      assert dy == y.digits[..cy][j] && Digit(dy);
      RowStep(x.digits, y.digits, i, j);
      MulTerm(z, i + j, dx, dy);
    }
  }

  /** Add the product of two digits at position `k`. */
  method MulTerm(z: Bigint, k: nat, dx: nat, dy: nat)
    requires k + 1 < |z.digits| && z.digits[k] <= 2 * (BASE - 1) && Digit(z.digits[k + 1]) && Digit(dx) && Digit(dy)
    modifies z`digits
    ensures |z.digits| == |old(z.digits)| && Digit(z.digits[k])
    ensures z.digits[k + 1] <= 2 * (BASE - 1) && (old(z.digits)[k + 1] == 0 ==> Digit(z.digits[k + 1]))
    ensures forall m | 0 <= m < |z.digits| && m != k && m != k + 1 :: z.digits[m] == old(z.digits)[m]
    ensures Val(z.digits) == Val(old(z.digits)) + dx * dy * Pow(k)
  {
    hide Val, Pow, DivD, ModD, Wrap;
    ghost var zs := z.digits;
    var prod := dx * dy + z.digits[k];
    ProductFits(dx, dy, BASE - 1, BASE - 1);
    DivModD(prod, BASE, BASE);
    var carry, rem := DivD(prod, BASE), ModD(prod, BASE);
    MulStep(zs, k, rem, carry, dx, dy);
    z.digits := z.digits[k := rem];
    NoWrap(z.digits[k + 1] + carry);
    z.digits := z.digits[k + 1 := Wrap(z.digits[k + 1] + carry)];
  }

  /** x * y for one digit `y`. */
  method MulSmall(x: Bigint, y: nat) returns (z: Bigint)
    requires x.Ok() && Digit(y)
    modifies x
    ensures z.Ok() && z.rc == 0 && (fresh(z) || (z == x && old(x.rc) == 0))
    ensures z.isNeg == old(x.isNeg) && z.Abs() == old(x.Abs()) * y
    ensures old(x.count) <= z.count <= old(x.count) + 1
    ensures z.count == old(x.count) + 1 ==> z.digits[old(x.count)] != 0
    ensures z != x ==> x.GaveUp(1)
  {
    hide Val, Pow, DivD, ModD;
    var cx := x.count;
    var neg := x.isNeg;
    z := AllocReuse(x, cx + 1);
    var n := MulSmallInto(x, y, z, cx);
    if z != x {
      Drop(x);
    }
    z.isNeg := z.isNeg || neg;
    TrimTo(z, n, true);
    assert n == cx + 1 ==> z.digits[cx] == z.digits[..n][cx];
  }

  lemma MulSmallStep(x: seq<nat>, z: seq<nat>, i: nat, y: nat, carry: nat, carry': nat, rem: nat)
    requires i < |x| && i < |z| && AllDigits(z[..i]) && Digit(rem)
    requires Val(z[..i]) + carry * Pow(i) == Val(x[..i]) * y
    requires x[i] * y + carry == carry' * BASE + rem
    ensures AllDigits(z[i := rem][..i + 1])
    ensures Val(z[i := rem][..i + 1]) + carry' * Pow(i + 1) == Val(x[..i + 1]) * y
  {
    hide Val, Pow;
    StoreDigit(z, i, rem);
    ValPrefix(x, i);
    CarryAt(i, rem, carry', x[i] * y + carry);
    Distribute(Val(x[..i]), x[i], Pow(i), y, carry);
  }

  lemma Distribute(v: int, d: int, p: int, y: int, carry: int)
    ensures (v + d * p) * y == v * y + d * y * p
    ensures (d * y + carry) * p == d * y * p + carry * p
  {
    Assoc(d, p, y);
    Assoc(d, y, p);
  }

  /** One digit of a product with `y`: the next digit of the result and the carry. */
  lemma MulSmallDigit(x: seq<nat>, z: seq<nat>, i: nat, y: nat, carry: nat, prod: nat)
    requires i < |x| && i < |z| && AllDigits(z[..i]) && Digit(x[i]) && Digit(y) && Digit(carry) && prod == x[i] * y + carry
    requires Val(z[..i]) + carry * Pow(i) == Val(x[..i]) * y
    ensures var rem := ModD(prod, BASE);
      && Digit(DivD(prod, BASE)) && AllDigits(z[i := rem][..i + 1])
      && Val(z[i := rem][..i + 1]) + DivD(prod, BASE) * Pow(i + 1) == Val(x[..i + 1]) * y
  {
    hide Val, Pow, DivD, ModD;
    ProductFits(x[i], y, carry, 0);
    DivModD(prod, BASE, BASE);
    MulSmallStep(x, z, i, y, carry, DivD(prod, BASE), ModD(prod, BASE));
  }

  method MulSmallInto(x: Bigint, y: nat, z: Bigint, cx: nat) returns (n: nat)
    requires cx <= |x.digits| && cx + 1 <= |z.digits| && AllDigits(x.digits[..cx]) && Digit(y)
    modifies z`digits
    ensures |z.digits| == |old(z.digits)| && cx <= n <= cx + 1 && AllDigits(z.digits[..n])
    ensures Val(z.digits[..n]) == Val(old(x.digits)[..cx]) * y
    ensures n == cx + 1 ==> z.digits[cx] != 0
  {
    hide Val, Pow, DivD, ModD;
    ghost var xs := x.digits;
    var carry: nat := MulSmallDigits(x, y, z, cx);
    n := cx;
    while carry > 0
      invariant cx <= n <= cx + 1 && (carry > 0 ==> n == cx) && |z.digits| == |old(z.digits)|
      invariant AllDigits(z.digits[..n]) && Digit(carry)
      invariant Val(z.digits[..n]) + carry * Pow(n) == Val(xs[..cx]) * y
      invariant n == cx + 1 ==> z.digits[cx] != 0
      decreases carry
    {
      DivModD(carry, BASE, 1);
      StoreDigit(z.digits, n, ModD(carry, BASE));
      z.digits := z.digits[n := ModD(carry, BASE)];
      n := n + 1;
      carry := DivD(carry, BASE);
    }
  }

  method MulSmallDigits(x: Bigint, y: nat, z: Bigint, cx: nat) returns (carry: nat)
    requires cx <= |x.digits| && cx <= |z.digits| && AllDigits(x.digits[..cx]) && Digit(y)
    modifies z`digits
    ensures |z.digits| == |old(z.digits)| && AllDigits(z.digits[..cx]) && Digit(carry)
    ensures Val(z.digits[..cx]) + carry * Pow(cx) == Val(old(x.digits)[..cx]) * y
  {
    hide Val, Pow, DivD, ModD;
    ghost var xs := x.digits;
    carry := 0;
    var n: nat := 0;
    ValEmpty();
    assert xs[..0] == [] == z.digits[..0];
    while n < cx
      invariant n <= cx && |z.digits| == |old(z.digits)| && |x.digits| == |xs| && x.digits[n..] == xs[n..]
      invariant AllDigits(z.digits[..n]) && Digit(carry)
      invariant Val(z.digits[..n]) + carry * Pow(n) == Val(xs[..n]) * y
    {
      assert x.digits[n] == xs[n] == xs[..cx][n] && Digit(xs[n]);
      var prod: nat := x.digits[n] * y + carry;
      MulSmallDigit(xs, z.digits, n, y, carry, prod);
      var rem := ModD(prod, BASE);
      TailAfter(x.digits, xs, n, rem);
      carry := DivD(prod, BASE);
      z.digits := z.digits[n := rem];
      n := n + 1;
    }
  }

  // ------- division by one digit -------

  /** |x| / y for one digit `y`, with the remainder. */
  method CdivCmodSmall(x: Bigint, y: nat) returns (z: Bigint, mod: nat)
    requires x.Ok() && Digit(y) && y > 0
    modifies x
    ensures z.Ok() && z.rc == 0 && (fresh(z) || (z == x && old(x.rc) == 0)) && Normal(z.digits[..z.count])
    ensures z.isNeg == old(x.isNeg) && old(x.Abs()) == z.Abs() * y + mod && mod < y
    ensures z != x ==> x.GaveUp(1)
  {
    hide Val, Pow;
    var cx := x.count;
    z := AllocReuse(x, cx);
    mod := DivSmallInto(x, y, z, cx);
    if z != x {
      Drop(x);
    }
    Trim(z);
  }

  method DivSmallInto(x: Bigint, y: nat, z: Bigint, cx: nat) returns (mod: nat)
    requires cx <= |x.digits| && cx <= |z.digits| && AllDigits(x.digits[..cx]) && Digit(y) && y > 0
    modifies z`digits
    ensures |z.digits| == |old(z.digits)| && AllDigits(z.digits[..cx])
    ensures Val(old(x.digits)[..cx]) == Val(z.digits[..cx]) * y + mod && mod < y
  {
    hide Val, Pow, DivD, ModD;
    ghost var xs := x.digits;
    mod := 0;
    var i := cx;
    ValEmpty();
    assert xs[cx..cx] == [] == z.digits[cx..cx];
    while i > 0
      invariant 0 <= i <= cx && |z.digits| == |old(z.digits)| && |x.digits| == |xs| && x.digits[..i] == xs[..i]
      invariant AllDigits(z.digits[i..cx]) && mod < y
      invariant Val(xs[i..cx]) == Val(z.digits[i..cx]) * y + mod
    {
      assert x.digits[i - 1] == x.digits[..i][i - 1] == xs[i - 1] == xs[..cx][i - 1] && Digit(xs[i - 1]);
      var div := mod * BASE + x.digits[i - 1];
      MulAtLeast(y - 1, mod, BASE, BASE);
      assert (y - 1) * BASE == y * BASE - BASE;
      DivModD(div, y, BASE);
      var q := DivD(div, y);
      DivStep(Val(xs[i..cx]), Val(z.digits[i..cx]), y, mod, xs[i - 1], q, ModD(div, y));
      assert xs[i - 1..cx] == [xs[i - 1]] + xs[i..cx];
      ValCons(xs[i - 1], xs[i..cx]);
      ValCons(q, z.digits[i..cx]);
      ghost var tail := z.digits[i..cx];
      z.digits := z.digits[i - 1 := q];
      assert z.digits[i - 1..cx] == [q] + tail;
      mod := ModD(div, y);
      i := i - 1;
    }
    assert xs[0..cx] == xs[..cx] && z.digits[0..cx] == z.digits[..cx];
  }

  lemma DivStep(x: int, z: int, y: int, mod: int, d: int, q: int, r: int)
    requires x == z * y + mod && mod * BASE + d == q * y + r
    ensures d + BASE * x == (q + BASE * z) * y + r
  {
    Assoc(BASE, z, y);
    assert (q + BASE * z) * y == q * y + BASE * z * y;
  }

  // ------- copying -------

  /** A copy of `x` with room for `extra` more digits, as far as there can be. */
  method Copy(x: Bigint, extra: nat) returns (z: Bigint)
    requires x.Ok()
    modifies x`rc, x`freed
    ensures fresh(z) && z.Ok() && z.rc == 0 && z.isNeg == x.isNeg
    ensures z.count == x.count && z.digits[..z.count] == x.digits[..x.count]
    ensures Capped(extra) <= z.extra <= MAX_EXTRA
    ensures x.GaveUp(1)
  {
    z := Alloc(x.count + Capped(extra), x.isNeg);
    TrimTo(z, x.count, false);
    z.digits := x.digits[..x.count] + z.digits[x.count..];
    Drop(x);
  }

  /** Append a most significant digit to a unique number. */
  method Push(x: Bigint, d: nat) returns (z: Bigint)
    requires x.Ok() && x.rc == 0 && Digit(d)
    modifies x
    ensures z.Ok() && z.rc == 0 && (z == x || fresh(z)) && z.isNeg == old(x.isNeg)
    ensures z.count == old(x.count) + 1 && z.digits[..z.count] == old(x.digits)[..old(x.count)] + [d]
    ensures z != x ==> x.freed
  {
    z := x;
    if x.extra == 0 {
      z := Copy(x, MAX_EXTRA);
    }
    ghost var s := z.digits[..z.count];
    z.digits := z.digits[z.count := d];
    z.count := z.count + 1;
    z.extra := z.extra - 1;
    assert z.digits[..z.count] == s + [d];
    assert forall i | 0 <= i < |s| :: Digit(s[i]);
  }
}
