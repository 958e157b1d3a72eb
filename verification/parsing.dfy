/** Parsing decimal integers: digits with underscores, a fraction and an exponent. */
module Parsing {
  import opened Digits
  import opened BigInt
  import opened Decimals
  import Integers
  import Tagged

  // ------- the notation -------

  /** The text is terminated by a zero character. */
  function At(s: string, i: nat): char {
    if i < |s| then s[i] else '\0'
  }

  predicate IsDigitChar(c: char) {
    '0' <= c <= '9'
  }

  function DigitOf(c: char): nat
    requires IsDigitChar(c)
  {
    (c as int) - ('0' as int)
  }

  predicate IsE(c: char) {
    c == 'e' || c == 'E'
  }

  /** Position `k` is part of a group of digits: underscores may separate digits. */
  predicate InGroup(s: string, k: nat) {
    IsDigitChar(At(s, k)) || (At(s, k) == '_' && IsDigitChar(At(s, k + 1)))
  }

  predicate Group(s: string, i: nat, j: nat) {
    forall k | i <= k < j :: InGroup(s, k)
  }

  /** Where the digits start, after an optional sign. */
  function Start(s: string): nat {
    if At(s, 0) == '+' || At(s, 0) == '-' then 1 else 0
  }

  predicate IsHex(s: string) {
    At(s, Start(s)) == '0' && (At(s, Start(s) + 1) == 'x' || At(s, Start(s) + 1) == 'X')
  }

  /** A decimal number: the end of the digits before the fraction, and the end of the fraction. */
  datatype Layout = Layout(dot: nat, end: nat)

  function ExpStart(s: string, end: nat): nat {
    if At(s, end + 1) == '+' then end + 2 else end + 1
  }

  predicate AllDigitChars(s: string, i: nat, j: nat)
    requires j <= |s|
  {
    forall k | i <= k < j :: IsDigitChar(s[k])
  }

  /** What follows the digits: nothing, or the start of an exponent. Without a fraction the digits
      of a signed exponent may be missing. */
  predicate AtExponent(s: string, end: nat, fraction: bool) {
    end == |s| || (
      && IsE(At(s, end))
      && (IsDigitChar(At(s, end + 1)) || (At(s, end + 1) == '+' && (fraction ==> IsDigitChar(At(s, end + 2))))))
  }

  /** The text is right up to the digits of the exponent. */
  predicate Shape(s: string, l: Layout) {
    && IsDigitChar(At(s, Start(s))) && Start(s) <= l.dot <= l.end <= |s| && Group(s, Start(s), l.dot)
    && if At(s, l.dot) == '.' then
         l.dot < l.end && IsDigitChar(At(s, l.dot + 1)) && Group(s, l.dot + 1, l.end) && AtExponent(s, l.end, true)
       else
         l.end == l.dot && AtExponent(s, l.end, false)
  }

  predicate Syntax(s: string, l: Layout) {
    Shape(s, l) && (l.end < |s| ==> AllDigitChars(s, ExpStart(s, l.end), |s|))
  }

  /** A text can be read in one way only. */
  lemma {:induction false} OneLayout(s: string, l: Layout, l': Layout)
    requires Shape(s, l) && Shape(s, l')
    ensures l == l'
  {
    NotInside(s, Start(s), l.dot, l'.dot);
    NotInside(s, Start(s), l'.dot, l.dot);
    if At(s, l.dot) == '.' {
      NotInside(s, l.dot + 1, l.end, l'.end);
      NotInside(s, l.dot + 1, l'.end, l.end);
    }
  }

  lemma NotInside(s: string, i: nat, j: nat, k: nat)
    requires Group(s, i, j) && i <= k && !InGroup(s, k)
    ensures j <= k
  {
  }

  // ------- what it denotes -------

  /** The digits in a text, ignoring everything else. */
  function DigitsOf(t: string): (ds: seq<nat>)
    ensures IsDecimal(ds) && |ds| <= |t|
  {
    if t == "" then []
    else DigitsOf(t[..|t| - 1]) + if IsDigitChar(t[|t| - 1]) then [DigitOf(t[|t| - 1])] else []
  }

  function Mantissa(s: string, l: Layout): seq<nat>
    requires l.end <= |s|
  {
    DigitsOf(s[..l.end])
  }

  function FractionLength(s: string, l: Layout): nat
    requires l.dot <= l.end <= |s|
  {
    DigitsPrefix(s, l.dot, l.end);
    |DigitsOf(s[..l.end])| - |DigitsOf(s[..l.dot])|
  }

  function ExponentOf(s: string, l: Layout): nat {
    if l.end >= |s| || ExpStart(s, l.end) > |s| then 0 else Num(DigitsOf(s[ExpStart(s, l.end)..]))
  }

  /** The integer `v` is the value of the text: mantissa * 10^exponent / 10^fraction length. */
  predicate Denotes(s: string, l: Layout, v: int)
    requires l.dot <= l.end <= |s|
  {
    var m := Num(Mantissa(s, l)) * Ten(ExponentOf(s, l));
    v * Ten(FractionLength(s, l)) == if At(s, 0) == '-' then -m else m
  }

  lemma {:induction false} DigitsStep(s: string, i: nat)
    requires i < |s|
    ensures DigitsOf(s[..i + 1]) == DigitsOf(s[..i]) + if IsDigitChar(s[i]) then [DigitOf(s[i])] else []
  {
    assert s[..i + 1][..i] == s[..i];
  }

  lemma {:induction false} DigitsPrefix(s: string, i: nat, j: nat)
    requires i <= j <= |s|
    ensures |DigitsOf(s[..i])| <= |DigitsOf(s[..j])| && DigitsOf(s[..j])[..|DigitsOf(s[..i])|] == DigitsOf(s[..i])
    decreases j
  {
    if i < j {
      DigitsPrefix(s, i, j - 1);
      DigitsStep(s, j - 1);
    }
  }

  // ------- scanning -------

  /** Where the digits before the fraction may end. */
  predicate SigEnd(s: string, i: nat) {
    (At(s, i) == '.' || IsE(At(s, i))) && (At(s, i + 1) == '+' || IsDigitChar(At(s, i + 1)))
  }

  method ScanSignificant(s: string, start: nat) returns (ok: bool, i: nat, sig: nat)
    requires start <= |s| && DigitsOf(s[..start]) == []
    ensures start <= i <= |s| && Group(s, start, i) && sig == |DigitsOf(s[..i])|
    ensures if ok then i == |s| || SigEnd(s, i) else i < |s| && !InGroup(s, i) && !SigEnd(s, i)
  {
    i, sig := start, 0;
    while i < |s|
      invariant start <= i <= |s| && Group(s, start, i) && sig == |DigitsOf(s[..i])|
    {
      var c := s[i];
      DigitsStep(s, i);
      if IsDigitChar(c) {
        sig := sig + 1;
      } else if c == '_' && IsDigitChar(At(s, i + 1)) {
      } else if (c == '.' || IsE(c)) && (At(s, i + 1) == '+' || IsDigitChar(At(s, i + 1))) {
        return true, i, sig;
      } else {
        return false, i, sig;
      }
      i := i + 1;
    }
    ok := true;
  }

  /** Where the fraction may end. */
  predicate FracEnd(s: string, i: nat) {
    IsE(At(s, i)) && (IsDigitChar(At(s, i + 1)) || (At(s, i + 1) == '+' && IsDigitChar(At(s, i + 2))))
  }

  /** The last `z` of the digits `ds` from position `n` on are zero, and the one before is not. */
  predicate TrailingZeros(ds: seq<nat>, n: nat, z: nat) {
    && n + z <= |ds|
    && (forall k | |ds| - z <= k < |ds| :: ds[k] == 0)
    && (n + z < |ds| ==> ds[|ds| - z - 1] != 0)
  }

  method ScanFraction(s: string, start: nat) returns (ok: bool, i: nat, frac: nat, zeros: nat)
    requires start <= |s|
    ensures start <= i <= |s| && Group(s, start, i) && |DigitsOf(s[..start])| + frac == |DigitsOf(s[..i])|
    ensures TrailingZeros(DigitsOf(s[..i]), |DigitsOf(s[..start])|, zeros)
    ensures if ok then i == |s| || FracEnd(s, i) else i < |s| && !InGroup(s, i) && !FracEnd(s, i)
  {
    i, frac, zeros := start, 0, 0;
    ghost var n := |DigitsOf(s[..start])|;
    while i < |s|
      invariant start <= i <= |s| && Group(s, start, i) && n + frac == |DigitsOf(s[..i])|
      invariant TrailingZeros(DigitsOf(s[..i]), n, zeros)
    {
      var c := s[i];
      DigitsStep(s, i);
      if IsDigitChar(c) {
        if c != '0' {
          zeros := 0;
        } else {
          zeros := zeros + 1;
        }
        frac := frac + 1;
      } else if c == '_' && IsDigitChar(At(s, i + 1)) {
      } else if IsE(c) && (IsDigitChar(At(s, i + 1)) || (At(s, i + 1) == '+' && IsDigitChar(At(s, i + 2)))) {
        return true, i, frac, zeros;
      } else {
        return false, i, frac, zeros;
      }
      i := i + 1;
    }
    ok := true;
  }

  /** The largest machine integer for counts and exponents. */
  type Size = n: nat | n >= BASE witness BASE

  const SIZE_MAX: Size

  /** Reading the exponent digit by digit, the machine integer overflows before it is found to exceed
      BASE. What happens then is not defined. */
  ghost predicate Overflows(s: string, p: nat)
    requires p <= |s|
  {
    exists k | p <= k < |s| :: OverflowsAt(s, p, k)
  }

  predicate OverflowsAt(s: string, p: nat, k: nat)
    requires p <= k < |s|
  {
    AllDigitChars(s, p, k + 1) && Num(DigitsOf(s[p..k])) <= BASE && Num(DigitsOf(s[p..k + 1])) > SIZE_MAX
  }

  /** Exponents that fit a machine integer, however large, do not overflow; and where ten times BASE
      fits as well, none does. */
  lemma {:induction false} Fits(s: string, p: nat)
    requires p <= |s| && (SIZE_MAX >= 10 * BASE + 9 || (AllDigitChars(s, p, |s|) && Num(DigitsOf(s[p..])) <= SIZE_MAX))
    ensures !Overflows(s, p)
  {
    hide Num, DigitsOf;
    forall k | p <= k < |s|
      ensures !OverflowsAt(s, p, k)
    {
      if AllDigitChars(s, p, k + 1) {
        ExponentStep(s, p, k);
        ExponentGrows(s, p, k + 1, |s|);
        assert s[p..|s|] == s[p..];
      }
    }
  }

  /** The exponent after position `end`, which holds the letter e; it must not exceed BASE. */
  method ScanExponent(s: string, end: nat) returns (fits: bool, ok: bool, exp: nat)
    requires end < |s| && ExpStart(s, end) <= |s|
    ensures fits <==> !Overflows(s, ExpStart(s, end))
    ensures fits ==> (ok <==> AllDigitChars(s, ExpStart(s, end), |s|) && Num(DigitsOf(s[ExpStart(s, end)..])) <= BASE)
    ensures fits && ok ==> exp == Num(DigitsOf(s[ExpStart(s, end)..]))
  {
    hide Num, DigitsOf;
    var i := end + 1;
    if At(s, i) == '+' {
      i := i + 1;
    }
    ghost var p := i;
    exp := 0;
    NoDigits(s, p);
    while At(s, i) == '0'
      invariant p <= i <= |s| && Scanned(s, p, i, 0)
      decreases |s| - i
    {
      ExponentStep(s, p, i);
      i := i + 1;
    }
    while i < |s|
      invariant p <= i <= |s| && Scanned(s, p, i, exp) && exp <= BASE
    {
      var c := s[i];
      if IsDigitChar(c) {
        ExponentStep(s, p, i);
        if 10 * exp + DigitOf(c) > SIZE_MAX {
          assert OverflowsAt(s, p, i);
          return false, false, 0;
        }
        exp := 10 * exp + DigitOf(c);
        if exp > BASE {
          NoOverflow(s, p, i + 1, exp);
          ExponentGrows(s, p, i + 1, |s|);
          assert s[p..|s|] == s[p..];
          return true, false, exp;
        }
      } else {
        NoOverflow(s, p, i, exp);
        return true, false, exp;
      }
      i := i + 1;
    }
    NoOverflow(s, p, |s|, exp);
    assert s[p..|s|] == s[p..];
    return true, true, exp;
  }

  /** Nothing overflows when reading stops at position `i`. */
  lemma {:induction false} NoOverflow(s: string, p: nat, i: nat, exp: nat)
    requires p <= i <= |s| && Scanned(s, p, i, exp) && exp <= SIZE_MAX
    requires i == |s| || !IsDigitChar(s[i]) || exp > BASE
    ensures !Overflows(s, p)
  {
    hide Num, DigitsOf;
    forall k | p <= k < |s|
      ensures !OverflowsAt(s, p, k)
    {
      if AllDigitChars(s, p, k + 1) {
        if k < i {
          ExponentGrows(s, p, k + 1, i);
        } else {
          ExponentGrows(s, p, i, k);
        }
      }
    }
  }

  ghost predicate Scanned(s: string, p: nat, i: nat, exp: nat)
    requires p <= i <= |s|
  {
    AllDigitChars(s, p, i) && exp == Num(DigitsOf(s[p..i]))
  }

  lemma NoDigits(s: string, p: nat)
    requires p <= |s|
    ensures Num(DigitsOf(s[p..p])) == 0
  {
  }

  lemma {:induction false} ExponentStep(s: string, p: nat, i: nat)
    requires p <= i < |s| && IsDigitChar(s[i])
    ensures Num(DigitsOf(s[p..i + 1])) == 10 * Num(DigitsOf(s[p..i])) + DigitOf(s[i])
  {
    assert s[p..i + 1][..i - p] == s[p..i];
    NumSnoc(DigitsOf(s[p..i]), DigitOf(s[i]));
  }

  /** More digits only make an exponent larger. */
  lemma {:induction false} ExponentGrows(s: string, p: nat, i: nat, j: nat)
    requires p <= i <= j <= |s|
    ensures AllDigitChars(s, p, j) ==> Num(DigitsOf(s[p..j])) >= Num(DigitsOf(s[p..i]))
    decreases j
  {
    hide Num, DigitsOf;
    if i < j && IsDigitChar(s[j - 1]) {
      ExponentStep(s, p, j - 1);
      ExponentGrows(s, p, i, j - 1);
    }
  }

  // ------- the digits of the result -------

  /** The first `n` digits of `ds`, followed by zeros. */
  function Stream(ds: seq<nat>, n: nat): (r: seq<nat>)
    ensures |r| == n
  {
    if n <= |ds| then ds[..n] else ds + Zeros(n - |ds|)
  }

  lemma {:induction false} StreamStep(ds: seq<nat>, n: nat)
    ensures Num(Stream(ds, n + 1)) == 10 * Num(Stream(ds, n)) + if n < |ds| then ds[n] else 0
  {
    var d := if n < |ds| then ds[n] else 0;
    assert Stream(ds, n + 1) == Stream(ds, n) + [d];
    NumSnoc(Stream(ds, n), d);
  }

  /** Beyond the digits each further one multiplies by ten. */
  lemma {:induction false} StreamTail(ds: seq<nat>, n: nat, k: nat)
    requires n >= |ds|
    ensures Num(Stream(ds, n + k)) == Num(Stream(ds, n)) * Ten(k)
  {
    assert Stream(ds, n + k) == Stream(ds, n) + Zeros(k);
    NumZeros(Stream(ds, n), k);
  }

  /** Reading position: `digits` digits have been taken, all from the text before `p`, or with
      zeros added at the end of it. */
  ghost predicate Cursor(s: string, end: nat, p: nat, digits: nat)
    requires end <= |s|
  {
    p <= end && (p < end ==> digits == |DigitsOf(s[..p])|) && (p == end ==> digits >= |DigitsOf(s[..end])|)
  }

  lemma {:induction false} CursorStep(s: string, end: nat, p: nat, digits: nat)
    requires end <= |s| && Cursor(s, end, p, digits) && p < end
    ensures IsDigitChar(s[p]) ==> Cursor(s, end, p + 1, digits + 1) && digits < |DigitsOf(s[..end])| && DigitsOf(s[..end])[digits] == DigitOf(s[p])
    ensures !IsDigitChar(s[p]) ==> Cursor(s, end, p + 1, digits)
  {
    DigitsStep(s, p);
    DigitsPrefix(s, p + 1, end);
    var ds := DigitsOf(s[..end]);
    var n := |DigitsOf(s[..p + 1])|;
    assert ds[..n] == DigitsOf(s[..p + 1]);
    if IsDigitChar(s[p]) {
      assert ds[digits] == ds[..n][digits];
    }
  }

  /** A number of few digits, as a machine integer. */
  method BuildMachine(s: string, end: nat, decDigits: nat) returns (d: nat)
    requires end <= |s|
    ensures d == Num(Stream(DigitsOf(s[..end]), decDigits))
  {
    hide Num, Stream, DigitsOf, Cursor;
    ghost var ds := DigitsOf(s[..end]);
    d := 0;
    var digits := 0;
    var p := 0;
    StartReading(s, end);
    while p < end && digits < decDigits
      invariant p <= end && digits <= decDigits && Cursor(s, end, p, digits) && d == Num(Stream(ds, digits))
    {
      var c := s[p];
      CursorStep(s, end, p, digits);
      if IsDigitChar(c) {
        StreamStep(ds, digits);
        digits := digits + 1;
        d := 10 * d + DigitOf(c);
      }
      p := p + 1;
    }
    AtEnd(s, end, p, digits);
    while digits < decDigits
      invariant digits <= decDigits && (digits < decDigits ==> digits >= |ds|) && d == Num(Stream(ds, digits))
    {
      StreamStep(ds, digits);
      d := d * 10;
      digits := digits + 1;
    }
  }

  lemma StartReading(s: string, end: nat)
    requires end <= |s|
    ensures Cursor(s, end, 0, 0) && Num(Stream(DigitsOf(s[..end]), 0)) == 0
  {
    assert s[..0] == "";
  }

  lemma AtEnd(s: string, end: nat, p: nat, digits: nat)
    requires end <= |s| && Cursor(s, end, p, digits)
    ensures p <= end && (p == end ==> digits >= |DigitsOf(s[..end])|)
  {
  }

  /** Read the next `chunk` digits, with zeros at the end of the text. */
  method ReadChunk(s: string, end: nat, p0: nat, digits0: nat, chunk: nat) returns (d: nat, p: nat, digits: nat)
    requires end <= |s| && Cursor(s, end, p0, digits0)
    ensures digits == digits0 + chunk && Cursor(s, end, p, digits) && d < Ten(chunk) && p0 <= p && (chunk > 0 && p0 < end ==> p > p0)
    ensures Num(Stream(DigitsOf(s[..end]), digits)) == Num(Stream(DigitsOf(s[..end]), digits0)) * Ten(chunk) + d
  {
    hide Num, Stream, DigitsOf, Cursor;
    ghost var ds := DigitsOf(s[..end]);
    p, digits, d := p0, digits0, 0;
    var j := 0;
    AtEnd(s, end, p, digits);
    while j < chunk
      invariant p0 <= p <= end && j <= chunk && digits == digits0 + j && d < Ten(j) && (j > 0 && p0 < end ==> p > p0)
      invariant Cursor(s, end, p, digits) && Num(Stream(ds, digits)) == Num(Stream(ds, digits0)) * Ten(j) + d
      decreases chunk - j, end - p
    {
      var c := '0';
      if p < end {
        c := s[p];
        CursorStep(s, end, p, digits);
        p := p + 1;
      } else {
        CursorStays(s, end, digits);
      }
      if IsDigitChar(c) {
        StreamStep(ds, digits);
        Shift(Num(Stream(ds, digits0)), Ten(j), d, DigitOf(c));
        digits := digits + 1;
        j := j + 1;
        d := 10 * d + DigitOf(c);
      }
    }
  }

  lemma CursorStays(s: string, end: nat, digits: nat)
    requires end <= |s| && Cursor(s, end, end, digits)
    ensures digits >= |DigitsOf(s[..end])| && Cursor(s, end, end, digits + 1)
  {
  }

  lemma Shift(v: int, t: int, d: int, c: int)
    ensures 10 * (v * t + d) + c == v * (10 * t) + (10 * d + c)
  {
    Assoc(v, 10, t);
    Assoc(10, v, t);
  }

  /** The digits of the number stored so far: those from position `k` on. */
  ghost predicate Stored(ds: seq<nat>, z: seq<nat>, digits: nat) {
    AllDigits(z) && Val(z) == Num(Stream(ds, digits))
  }

  /** How the remaining `k` digits of the number divide the remaining decimal digits. */
  predicate Planned(decDigits: nat, digits: nat, k: nat, count: nat, chunk: nat) {
    && k <= count && 0 < chunk <= LOG_BASE
    && (k < count ==> chunk == LOG_BASE) && (k == count ==> digits == 0)
    && (if k == 0 then digits == decDigits else digits + chunk + (k - 1) * LOG_BASE == decDigits)
  }

  /** Storing the next digit in front. */
  lemma {:induction false} StoreChunk(ds: seq<nat>, z: seq<nat>, digits: nat, chunk: nat, d: nat)
    requires Stored(ds, z, digits) && d < Ten(chunk) && chunk <= LOG_BASE && (z != [] ==> chunk == LOG_BASE)
    requires Num(Stream(ds, digits + chunk)) == Num(Stream(ds, digits)) * Ten(chunk) + d
    ensures Stored(ds, [d] + z, digits + chunk)
  {
    hide Val, Num, Stream;
    ValCons(d, z);
    TenAdd(chunk, LOG_BASE - chunk);
    MulAtLeast(Ten(chunk), Ten(chunk), Ten(LOG_BASE - chunk), 1);
    assert Digit(d);
    if z == [] {
      ValEmpty();
    }
  }

  lemma PlanNext(decDigits: nat, digits: nat, k: nat, count: nat, chunk: nat)
    requires Planned(decDigits, digits, k, count, chunk) && digits < decDigits
    ensures k > 0 && Planned(decDigits, digits + chunk, k - 1, count, LOG_BASE)
  {
    if k > 1 {
      assert (k - 1) * LOG_BASE == (k - 2) * LOG_BASE + LOG_BASE;
    }
  }

  lemma PlanStart(decDigits: nat)
    requires decDigits > 0
    ensures var count := (decDigits + (LOG_BASE - 1)) / LOG_BASE;
      count > 0 && (count == 1 <==> decDigits <= LOG_BASE) && Planned(decDigits, 0, count, count, if decDigits % LOG_BASE == 0 then LOG_BASE else decDigits % LOG_BASE)
  {
    var q, r := decDigits / LOG_BASE, decDigits % LOG_BASE;
    var n := decDigits + (LOG_BASE - 1);
    assert decDigits == q * LOG_BASE + r;
    if r == 0 {
      Quotient(n, LOG_BASE, q, LOG_BASE - 1);
      assert 0 * LOG_BASE == 0;
      assert (q - 1) * LOG_BASE == q * LOG_BASE - LOG_BASE;
    } else {
      Quotient(n, LOG_BASE, q + 1, r - 1);
    }
    var count := n / LOG_BASE;
    if count >= 2 {
      MulAtLeast(count - 1, 1, LOG_BASE, LOG_BASE);
    } else {
      assert 0 * LOG_BASE == 0;
    }
  }

  lemma Quotient(n: nat, d: nat, q: nat, r: nat)
    requires d > 0 && n == q * d + r && r < d
    ensures n / d == q
  {
    var q', r' := n / d, n % d;
    assert n == q' * d + r' && r' < d;
    if q < q' {
      MulAtLeast(q', q + 1, d, d);
    } else if q' < q {
      MulAtLeast(q, q' + 1, d, d);
    }
  }

  /** The remaining digits are zero. */
  lemma {:induction false} ZerosBelow(ds: seq<nat>, z: seq<nat>, digits: nat, k: nat, decDigits: nat)
    requires Stored(ds, z, digits) && digits + k * LOG_BASE == decDigits && (digits >= |ds| || k == 0)
    ensures Stored(ds, Zeros(k) + z, decDigits)
  {
    hide Val, Num, Stream, Pow, Ten;
    ValConcat(Zeros(k), z);
    ValZeros(Zeros(k));
    PowTen(k);
    if k == 0 {
      assert Zeros(0) + z == z && 0 * LOG_BASE == 0;
    } else {
      StreamTail(ds, digits, k * LOG_BASE);
    }
  }

  lemma {:induction false} PowTen(k: nat)
    ensures Pow(k) == Ten(k * LOG_BASE)
  {
    if k == 0 {
      assert 0 * LOG_BASE == 0;
    } else {
      PowTen(k - 1);
      assert k * LOG_BASE == LOG_BASE + (k - 1) * LOG_BASE;
      TenAdd(LOG_BASE, (k - 1) * LOG_BASE);
    }
  }

  /** How many of `n` decimal digits make up the first digit of the number. */
  function FirstChunk(n: nat): nat {
    if n % LOG_BASE == 0 then LOG_BASE else n % LOG_BASE
  }

  /** The number of the first `n` of these decimal digits has a single digit, or its first one is not zero. */
  predicate NoLeadingZeros(ds: seq<nat>, n: nat) {
    n <= LOG_BASE || Num(Stream(ds, FirstChunk(n))) != 0
  }

  /** The digits of a number of `n` decimal digits. */
  function DigitCount(n: nat): nat {
    (n + (LOG_BASE - 1)) / LOG_BASE
  }

  /** A number of many digits, as a big integer; leading zeros stay. */
  method BuildBig(s: string, end: nat, decDigits: nat, neg: bool) returns (b: Bigint)
    requires 0 < end <= |s| && decDigits > 0
    ensures fresh(b) && b.Ok() && b.rc == 0 && b.isNeg == neg && b.Abs() == Num(Stream(DigitsOf(s[..end]), decDigits))
    ensures b.count == DigitCount(decDigits) > 0 && (Proper(b.digits[..b.count]) <==> NoLeadingZeros(DigitsOf(s[..end]), decDigits))
  {
    hide Num, Stream, DigitsOf, Cursor, Val, Pow, Ten;
    ghost var ds := DigitsOf(s[..end]);
    var count := (decDigits + (LOG_BASE - 1)) / LOG_BASE;
    PlanStart(decDigits);
    b := Alloc(count, neg);
    var k: nat := count;
    var chunk: nat := decDigits % LOG_BASE;
    if chunk == 0 {
      chunk := LOG_BASE;
    }
    var p: nat := 0;
    var digits: nat := 0;
    StartReading(s, end);
    ValEmpty();
    assert b.digits[count..count] == [];
    while p < end && digits < decDigits
      invariant fresh(b) && !b.freed && b.rc == 0 && b.isNeg == neg && b.count == count && count + b.extra <= |b.digits|
      invariant p <= end && Cursor(s, end, p, digits) && Planned(decDigits, digits, k, count, chunk) && (k == count ==> p == 0)
      invariant Stored(ds, b.digits[k..count], digits)
      invariant k < count ==> b.digits[count - 1] == Num(Stream(ds, FirstChunk(decDigits)))
      invariant k == count ==> chunk == FirstChunk(decDigits)
      decreases end - p
    {
      var d;
      ghost var digits0, z := digits, b.digits[k..count];
      PlanNext(decDigits, digits, k, count, chunk);
      d, p, digits := ReadChunk(s, end, p, digits, chunk);
      FirstOnly(ds, digits0, chunk, d);
      AtEnd(s, end, p, digits);
      StoreChunk(ds, z, digits0, chunk, d);
      k := k - 1;
      b.digits := b.digits[k := d];
      assert b.digits[k..count] == [d] + z;
      chunk := LOG_BASE;
    }
    // set the final zeros
    AtEnd(s, end, p, digits);
    Remaining(decDigits, digits, k, count, chunk);
    ghost var z, top := b.digits[k..count], b.digits[count - 1];
    for j := 0 to k
      invariant fresh(b) && !b.freed && b.rc == 0 && b.isNeg == neg && b.count == count && count + b.extra <= |b.digits|
      invariant b.digits[..j] == Zeros(j) && b.digits[k..count] == z && b.digits[count - 1] == top
    {
      b.digits := b.digits[j := 0];
    }
    ZerosBelow(ds, z, digits, k, decDigits);
    assert b.digits[..count] == Zeros(k) + z;
  }

  lemma FirstOnly(ds: seq<nat>, digits: nat, chunk: nat, d: nat)
    requires Num(Stream(ds, digits + chunk)) == Num(Stream(ds, digits)) * Ten(chunk) + d
    ensures digits == 0 ==> d == Num(Stream(ds, chunk))
  {
    assert Stream(ds, 0) == [];
    assert 0 * Ten(chunk) == 0;
  }

  lemma Remaining(decDigits: nat, digits: nat, k: nat, count: nat, chunk: nat)
    requires Planned(decDigits, digits, k, count, chunk)
    ensures k < count ==> digits + k * LOG_BASE == decDigits
    ensures digits >= decDigits && decDigits > 0 ==> k == 0
  {
    if k > 0 {
      assert k * LOG_BASE == (k - 1) * LOG_BASE + LOG_BASE;
      MulAtLeast(k - 1, 0, LOG_BASE, 0);
    } else {
      assert 0 * LOG_BASE == 0;
    }
  }

  // ------- the whole number -------

  /** What a scan finds out about a text: the numbers of digits before and in the fraction, how many
      zeros end the fraction, where it ends, and the exponent. */
  datatype Scan = Scan(sig: nat, frac: nat, zeros: nat, end: nat, exp: nat)

  ghost predicate Describes(k: Scan, s: string, l: Layout) {
    && Syntax(s, l) && k.end == l.end && k.sig == |DigitsOf(s[..l.dot])| && k.frac == FractionLength(s, l)
    && TrailingZeros(Mantissa(s, l), k.sig, k.zeros) && k.exp == ExponentOf(s, l) <= BASE
  }

  lemma EndsOutside(s: string, l: Layout)
    requires Shape(s, l)
    ensures !InGroup(s, l.dot) && !InGroup(s, l.end)
  {
  }

  /** The only possible layout, given where the groups of digits end. */
  lemma {:induction false} LayoutIs(s: string, l: Layout, dot: nat, end: nat)
    requires Shape(s, l) && Start(s) <= dot && Group(s, Start(s), dot) && !InGroup(s, dot)
    ensures l.dot == dot
    ensures At(s, dot) == '.' && dot < end && Group(s, dot + 1, end) && !InGroup(s, end) ==> l.end == end
    ensures At(s, dot) != '.' ==> l.end == dot
  {
    EndsOutside(s, l);
    NotInside(s, Start(s), l.dot, dot);
    NotInside(s, Start(s), dot, l.dot);
    if At(s, dot) == '.' && dot < end && Group(s, dot + 1, end) && !InGroup(s, end) {
      NotInside(s, dot + 1, l.end, end);
      NotInside(s, dot + 1, end, l.end);
    }
  }

  /** No layout: the digits before the fraction end in the wrong way. */
  lemma {:induction false} BadSignificant(s: string, i: nat)
    requires Start(s) <= i < |s| && Group(s, Start(s), i) && !InGroup(s, i) && !SigEnd(s, i)
    ensures forall l :: !Shape(s, l)
  {
    forall l ensures !Shape(s, l) {
      if Shape(s, l) {
        LayoutIs(s, l, i, i);
      }
    }
  }

  /** No layout: the fraction ends in the wrong way. */
  lemma {:induction false} BadFraction(s: string, dot: nat, i: nat)
    requires Start(s) <= dot < i < |s| && Group(s, Start(s), dot) && At(s, dot) == '.'
    requires Group(s, dot + 1, i) && !InGroup(s, i) && !FracEnd(s, i)
    ensures forall l :: !Shape(s, l)
  {
    forall l ensures !Shape(s, l) {
      if Shape(s, l) {
        LayoutIs(s, l, dot, i);
      }
    }
  }

  /** The exponent of the number is so long that the machine integer for it overflows. */
  ghost predicate TooLong(s: string) {
    exists l :: TooLongAt(s, l)
  }

  ghost predicate TooLongAt(s: string, l: Layout) {
    Shape(s, l) && l.end < |s| && Overflows(s, ExpStart(s, l.end))
  }

  method ScanNumber(s: string) returns (fits: bool, ok: bool, k: Scan, ghost l: Layout)
    requires '\0' !in s && Start(s) <= |s| && IsDigitChar(At(s, Start(s)))
    ensures fits <==> !TooLong(s)
    ensures fits && ok ==> Describes(k, s, l)
    ensures fits && !ok ==> forall l :: Syntax(s, l) ==> ExponentOf(s, l) > BASE
  {
    hide Num, DigitsOf, Overflows;
    fits := true;
    k, l := Scan(0, 0, 0, 0, 0), Layout(0, 0);
    SignIsNoDigit(s);
    var sig, i;
    ok, i, sig := ScanSignificant(s, Start(s));
    if !ok {
      BadSignificant(s, i);
      return;
    }
    ghost var dot := i;
    var frac, zeros := 0, 0;
    if At(s, i) == '.' {
      ok, i, frac, zeros := ScanFraction(s, i + 1);
      DotIsNoDigit(s, dot);
      if !ok {
        BadFraction(s, dot, i);
        return;
      }
    }
    l := Layout(dot, i);
    assert At(s, dot) == '.' ==> IsDigitChar(At(s, dot + 1)) by {
      assert i > dot + 1 ==> InGroup(s, dot + 1);
    }
    assert Shape(s, l);
    forall l' | Shape(s, l')
      ensures l' == l
    {
      OneLayout(s, l, l');
    }
    var exp := 0;
    if i < |s| {
      fits, ok, exp := ScanExponent(s, i);
      assert !fits ==> TooLongAt(s, l);
      if !fits || !ok {
        return;
      }
    }
    k := Scan(sig, frac, zeros, i, exp);
    assert Syntax(s, l) && k.frac == FractionLength(s, l);
  }

  lemma SignIsNoDigit(s: string)
    requires Start(s) <= |s|
    ensures DigitsOf(s[..Start(s)]) == []
  {
  }

  lemma DotIsNoDigit(s: string, i: nat)
    requires i < |s| && s[i] == '.'
    ensures DigitsOf(s[..i + 1]) == DigitsOf(s[..i])
  {
    DigitsStep(s, i);
  }

  // ------- the value -------

  /** Without its final zeros the mantissa is the same number divided by a power of ten. */
  lemma {:induction false} DropZeros(ds: seq<nat>, z: nat)
    requires z <= |ds| && forall k | |ds| - z <= k < |ds| :: ds[k] == 0
    ensures Num(ds) == Num(ds[..|ds| - z]) * Ten(z)
  {
    assert ds == ds[..|ds| - z] + Zeros(z);
    NumZeros(ds[..|ds| - z], z);
  }

  /** With a large enough exponent the value is an integer, with the digits of the mantissa and
      zeros added. */
  lemma {:induction false} WholeValue(ds: seq<nat>, sig: nat, frac: nat, z: nat, exp: nat)
    requires |ds| == sig + frac && z <= frac && TrailingZeros(ds, sig, z) && exp >= frac - z
    ensures Num(Stream(ds, sig + exp)) * Ten(frac) == Num(ds) * Ten(exp)
  {
    hide Num, Ten;
    var a := ds[..|ds| - z];
    var k := exp - (frac - z);
    assert Stream(ds, sig + exp) == a + Zeros(k);
    NumZeros(a, k);
    DropZeros(ds, z);
    TenAdd(k, frac);
    TenAdd(z, exp);
    Assoc(Num(a), Ten(k), Ten(frac));
    Assoc(Num(a), Ten(z), Ten(exp));
  }

  lemma Cancel(a: int, b: int, t: int)
    requires a * t == b * t && t > 0
    ensures a == b
  {
    assert (a - b) * t == 0 && (b - a) * t == 0;
    if a > b {
      MulAtLeast(a - b, 1, t, 1);
    } else if a < b {
      MulAtLeast(b - a, 1, t, 1);
    }
  }

  /** Otherwise it is not an integer. */
  lemma {:induction false} FractionalValue(ds: seq<nat>, sig: nat, frac: nat, z: nat, exp: nat, v: int)
    requires IsDecimal(ds) && |ds| == sig + frac && z <= frac && TrailingZeros(ds, sig, z) && exp < frac - z
    ensures v * Ten(frac) != Num(ds) * Ten(exp)
  {
    hide Num, Ten;
    var n := |ds| - z;
    var a := Num(ds[..n]);
    DropZeros(ds, z);
    var k := frac - z - exp;
    TenAdd(k, z + exp);
    TenAdd(z, exp);
    Assoc(v, Ten(k), Ten(z + exp));
    Assoc(a, Ten(z), Ten(exp));
    if v * Ten(frac) == Num(ds) * Ten(exp) {
      Cancel(v * Ten(k), a, Ten(z + exp));
      LastDigit(ds[..n]);
      TenTimes(v, k);
    }
  }

  lemma LastDigit(ds: seq<nat>)
    requires IsDecimal(ds) && ds != []
    ensures Num(ds) % 10 == ds[|ds| - 1]
  {
  }

  lemma TenTimes(v: int, k: nat)
    requires k > 0
    ensures (v * Ten(k)) % 10 == 0
  {
    assert v * (10 * Ten(k - 1)) == 10 * (v * Ten(k - 1));
  }

  // ------- parsing -------

  /** A rejected text, a hexadecimal number (left to another function), an exponent that overflows, or
      the integer. */
  datatype Parsed = Rejected | Hexadecimal | Overflow | Number(i: Integers.Integer)

  /** `v` is the value of the text; the exponent is limited. */
  ghost predicate Accepts(s: string, v: int) {
    exists l :: Syntax(s, l) && ExponentOf(s, l) <= BASE && Denotes(s, l, v)
  }

  lemma {:induction false} AcceptsOne(s: string, v: int, w: int)
    requires Accepts(s, v) && Accepts(s, w)
    ensures v == w
  {
    var l :| Syntax(s, l) && ExponentOf(s, l) <= BASE && Denotes(s, l, v);
    var l' :| Syntax(s, l') && ExponentOf(s, l') <= BASE && Denotes(s, l', w);
    OneLayout(s, l, l');
    Cancel(v, w, Ten(FractionLength(s, l)));
  }

  lemma {:induction false} RejectedScan(s: string)
    requires forall l :: Syntax(s, l) ==> ExponentOf(s, l) > BASE
    ensures forall v :: !Accepts(s, v)
  {
  }

  lemma {:induction false} RejectedFraction(s: string, k: Scan, l: Layout)
    requires Describes(k, s, l) && k.exp < k.frac - k.zeros
    ensures forall v :: !Accepts(s, v)
  {
    forall v ensures !Accepts(s, v) {
      if Accepts(s, v) {
        var l' :| Syntax(s, l') && ExponentOf(s, l') <= BASE && Denotes(s, l', v);
        OneLayout(s, l, l');
        NotDenoted(s, k, l, v);
      }
    }
  }

  lemma {:induction false} NotDenoted(s: string, k: Scan, l: Layout, v: int)
    requires Describes(k, s, l) && k.exp < k.frac - k.zeros
    ensures !Denotes(s, l, v)
  {
    hide Num, Ten, DigitsOf;
    MantissaLength(s, l);
    FractionalValue(Mantissa(s, l), k.sig, k.frac, k.zeros, k.exp, v);
    FractionalValue(Mantissa(s, l), k.sig, k.frac, k.zeros, k.exp, -v);
    assert -v * Ten(k.frac) == -(v * Ten(k.frac));
  }

  lemma MantissaLength(s: string, l: Layout)
    requires Syntax(s, l)
    ensures |Mantissa(s, l)| == |DigitsOf(s[..l.dot])| + FractionLength(s, l)
  {
    DigitsPrefix(s, l.dot, l.end);
  }

  lemma {:induction false} AcceptedValue(s: string, k: Scan, l: Layout, d: nat)
    requires Describes(k, s, l) && k.zeros <= k.frac && k.exp >= k.frac - k.zeros && d == Num(Stream(Mantissa(s, l), k.sig + k.exp))
    ensures Accepts(s, if At(s, 0) == '-' then -(d as int) else d)
  {
    hide Num, Ten, DigitsOf, Stream;
    MantissaLength(s, l);
    WholeValue(Mantissa(s, l), k.sig, k.frac, k.zeros, k.exp);
    assert -(d as int) * Ten(k.frac) == -(d * Ten(k.frac));
  }

  /** The decimal digits of the integer that a text denotes, zeros at the end included. */
  function IntegerDigits(s: string, l: Layout): nat
    requires l.dot <= |s|
  {
    |DigitsOf(s[..l.dot])| + ExponentOf(s, l)
  }

  /** Parse an integer: the result is the value of the text, and only texts without an integer value
      (or with an excessive exponent) are rejected. Zeros at the start of a long text stay. */
  method Parse(s: string) returns (r: Parsed)
    requires '\0' !in s
    ensures r.Hexadecimal? <==> IsHex(s)
    ensures r.Overflow? <==> !IsHex(s) && TooLong(s)
    ensures r.Rejected? ==> forall v :: !Accepts(s, v)
    ensures r.Number? ==> Integers.Ok(r.i) && (r.i.Big? ==> fresh(r.i.x)) && Accepts(s, Integers.Denoted(r.i))
    ensures r.Number? ==> forall l | Syntax(s, l) :: Integers.Trimmed(r.i) <==> NoLeadingZeros(Mantissa(s, l), IntegerDigits(s, l))
    ensures r.Number? && r.i.Big? ==> (r.i.x.isNeg <==> At(s, 0) == '-')
    ensures r.Number? && r.i.Big? ==> forall l | Syntax(s, l) && IntegerDigits(s, l) >= LOG_BASE :: r.i.x.count == DigitCount(IntegerDigits(s, l))
  {
    hide Num, Ten, DigitsOf, Stream, Syntax, Accepts, TooLongAt, Integers.Length, Tagged.IsInteger, Tagged.IsSmall, Tagged.Unboxed, Tagged.Boxed,
      Val, AllDigits, NoLeadingZeros, DigitCount;
    var isNeg := At(s, 0) == '-';
    var i := Start(s);
    if IsHex(s) {
      return Hexadecimal;
    }
    if !IsDigitChar(At(s, i)) {
      NoDigitAtStart(s);
      return Rejected;
    }
    var fits, ok, k;
    ghost var l;
    fits, ok, k, l := ScanNumber(s);
    if !fits {
      return Overflow;
    }
    if !ok {
      RejectedScan(s);
      return Rejected;
    }
    TrailingLength(k, s, l);
    var fracDigits := k.frac - k.zeros;
    if k.exp < fracDigits {
      RejectedFraction(s, k, l);
      return Rejected;
    }
    var zeroDigits := k.exp - fracDigits;
    var decDigits := k.sig + fracDigits + zeroDigits;
    OnlyLayout(s, k, l, decDigits);
    var z;
    if decDigits < LOG_BASE {
      FewDigits(Mantissa(s, l), decDigits);
      var d := BuildMachine(s, k.end, decDigits);
      AcceptedValue(s, k, l, d);
      z := Integers.FromMachineInt(if isNeg then -(d as int) else d);
    } else {
      var b := BuildBig(s, k.end, decDigits, isNeg);
      AcceptedValue(s, k, l, b.Abs());
      z := Integers.FromBigint(b);
    }
    return Number(z);
  }

  lemma FewDigits(ds: seq<nat>, n: nat)
    requires n < LOG_BASE
    ensures NoLeadingZeros(ds, n)
  {
  }

  lemma OnlyLayout(s: string, k: Scan, l: Layout, n: nat)
    requires Describes(k, s, l) && n == k.sig + k.exp
    ensures forall l' | Syntax(s, l') :: l' == l
    ensures IntegerDigits(s, l) == n && Mantissa(s, l) == DigitsOf(s[..k.end])
  {
    forall l' | Syntax(s, l')
      ensures l' == l
    {
      OneLayout(s, l, l');
    }
  }

  lemma NoDigitAtStart(s: string)
    requires !IsDigitChar(At(s, Start(s)))
    ensures (forall v :: !Accepts(s, v)) && !TooLong(s)
  {
  }

  /** The zeros at the end are part of the fraction. */
  lemma TrailingLength(k: Scan, s: string, l: Layout)
    requires Describes(k, s, l)
    ensures k.zeros <= k.frac && 0 < k.end <= |s|
  {
    MantissaLength(s, l);
  }

  // ------- printing, then parsing -------

  lemma {:induction false} DigitsOfChars(sign: string, ds: seq<nat>)
    requires IsDecimal(ds) && (sign == "" || sign == "-")
    ensures DigitsOf(sign + Chars(ds)) == ds
  {
    hide Chars, DigitsOf;
    if ds == [] {
      NoChars(sign);
    } else {
      var n := |ds| - 1;
      DigitsOfChars(sign, ds[..n]);
      assert ds == ds[..n] + [ds[n]];
      CharsConcat(ds[..n], [ds[n]]);
      OneChar(ds[n]);
      assert sign + (Chars(ds[..n]) + [DigitChar(ds[n])]) == sign + Chars(ds[..n]) + [DigitChar(ds[n])];
      DigitsOfSnoc(sign + Chars(ds[..n]), ds[n]);
    }
  }

  lemma NoChars(sign: string)
    requires sign == "" || sign == "-"
    ensures DigitsOf(sign + Chars([])) == []
  {
    assert sign + Chars([]) == sign;
  }

  lemma OneChar(d: nat)
    requires d < 10
    ensures Chars([d]) == [DigitChar(d)]
  {
  }

  lemma DigitsOfSnoc(t: string, d: nat)
    requires d < 10
    ensures DigitsOf(t + [DigitChar(d)]) == DigitsOf(t) + [d]
  {
    assert (t + [DigitChar(d)])[..|t|] == t;
    var c := DigitChar(d);
    assert c as int == '0' as int + d;
  }

  /** Overflow does occur on machines where ten times BASE is no machine integer, as with 32-bit words
      and base 10^9 or 64-bit words and base 10^18: the text "1e" followed by that number. */
  lemma {:induction false} OverflowsAtTenTimesBase()
    requires SIZE_MAX < 10 * BASE
    ensures TooLong("1e" + Chars(Decimal(10 * BASE))) && !IsHex("1e" + Chars(Decimal(10 * BASE)))
  {
    hide Num, DigitsOf, Chars;
    var ds := Decimal(BASE);
    assert Decimal(10 * BASE) == ds + [0] by {
      assert 10 * BASE / 10 == BASE && 10 * BASE % 10 == 0;
    }
    var s, l := "1e" + Chars(ds + [0]), Layout(1, 1);
    CharsConcat(ds, [0]);
    OneChar(0);
    var k := |s| - 1;
    assert s[2..k] == Chars(ds) && s[2..k + 1] == Chars(ds + [0]);
    CharsAreDigits(ds + [0]);
    DigitsOfChars("", ds);
    DigitsOfChars("", ds + [0]);
    assert "" + Chars(ds) == Chars(ds) && "" + Chars(ds + [0]) == Chars(ds + [0]);
    NumDecimal(BASE);
    NumSnoc(ds, 0);
    assert OverflowsAt(s, 2, k);
    assert TooLongAt(s, l);
  }

  lemma CharsAreDigits(ds: seq<nat>)
    requires IsDecimal(ds)
    ensures forall k | 0 <= k < |ds| :: IsDigitChar(Chars(ds)[k])
  {
  }

  lemma NoExponent(t: string, l: Layout)
    requires Shape(t, l) && l.end == |t|
    ensures !TooLong(t)
  {
    hide Overflows;
    forall l' ensures !TooLongAt(t, l') {
      if Shape(t, l') {
        OneLayout(t, l, l');
      }
    }
  }

  /** What a text of a sign and digits stands for. */
  lemma {:induction false} DigitText(sign: string, ds: seq<nat>)
    requires IsDecimal(ds) && ds != [] && (sign == "" || sign == "-")
    ensures var t := sign + Chars(ds); var l := Layout(|t|, |t|);
      && '\0' !in t && !IsHex(t) && !TooLong(t) && Syntax(t, l) && Mantissa(t, l) == ds && IntegerDigits(t, l) == |ds|
      && Accepts(t, if sign == "-" then -(Num(ds) as int) else Num(ds))
  {
    hide Num, DigitsOf, TooLong, Chars;
    var t := sign + Chars(ds);
    var l := Layout(|t|, |t|);
    CharsAreDigits(ds);
    assert forall k | |sign| <= k < |t| :: t[k] == Chars(ds)[k - |sign|];
    assert Syntax(t, l);
    NoExponent(t, l);
    assert t[..|t|] == t;
    DigitsOfChars(sign, ds);
    assert Denotes(t, l, if sign == "-" then -(Num(ds) as int) else Num(ds));
  }

  lemma DecimalText(v: int)
    ensures Text(v) == (if v < 0 then "-" else "") + Chars(Decimal(if v < 0 then -v else v))
  {
    hide Decimal;
  }

  /** Parsing the text of an integer gives exactly this integer. */
  lemma {:induction false} RoundTrip(v: int)
    ensures !IsHex(Text(v)) && !TooLong(Text(v)) && '\0' !in Text(v)
    ensures forall w :: Accepts(Text(v), w) <==> w == v
    ensures forall l | Syntax(Text(v), l) :: NoLeadingZeros(Mantissa(Text(v), l), IntegerDigits(Text(v), l))
  {
    hide Decimal, Num, DigitsOf, TooLong, Text, Accepts, Syntax, Mantissa, IntegerDigits, IsHex, NoLeadingZeros;
    var t := Text(v);
    var n: nat := if v < 0 then -v else v;
    DecimalText(v);
    DigitText(if v < 0 then "-" else "", Decimal(n));
    NumDecimal(n);
    FirstChunkCounts(n);
    forall w ensures Accepts(t, w) <==> w == v {
      if Accepts(t, w) {
        AcceptsOne(t, v, w);
      }
    }
    EveryLayout(t, Layout(|t|, |t|));
  }

  lemma EveryLayout(t: string, l: Layout)
    requires Syntax(t, l) && NoLeadingZeros(Mantissa(t, l), IntegerDigits(t, l))
    ensures forall l' | Syntax(t, l') :: NoLeadingZeros(Mantissa(t, l'), IntegerDigits(t, l'))
  {
    hide NoLeadingZeros, Mantissa, IntegerDigits;
    forall l' | Syntax(t, l')
      ensures l' == l
    {
      OneLayout(t, l, l');
    }
  }

  /** Decimal notation does not start with a chunk of zeros. */
  lemma {:induction false} FirstChunkCounts(n: nat)
    ensures NoLeadingZeros(Decimal(n), |Decimal(n)|)
  {
    hide Num, Decimal, Padded;
    var ds := Decimal(n);
    if |ds| > LOG_BASE {
      NumDecimal(n);
      NumBound(ds);
      if n == 0 {
        DecimalZero();
      }
      PaddedIsDecimal(n, |ds|);
      NumPositive(Stream(ds, FirstChunk(|ds|)));
    }
  }

  lemma DecimalZero()
    ensures Decimal(0) == [0]
  {
  }

  /** Printing, then parsing, gives back every integer, without leading zeros. */
  method ParsePrinted(v: int) returns (r: Parsed)
    ensures r.Number? && Integers.Ok(r.i) && Integers.Trimmed(r.i) && Integers.Denoted(r.i) == v && (r.i.Big? ==> fresh(r.i.x))
  {
    hide Text, Accepts, TooLong, IsHex, Syntax, NoLeadingZeros, Mantissa, IntegerDigits;
    RoundTrip(v);
    assert Accepts(Text(v), v);
    r := Parse(Text(v));
    ParsedLayout(Text(v), v);
  }

  lemma ParsedLayout(s: string, v: int)
    requires Accepts(s, v)
    ensures exists l :: Syntax(s, l)
  {
  }

  // ------- leading zeros -------

  /** Perhaps a minus sign, LOG_BASE + 1 zeros and a last digit; with base 10^18, twenty digits. */
  function Zeroed(negative: bool, d: nat): string
    requires d < 10
  {
    (if negative then "-" else "") + Chars(Zeros(LOG_BASE + 1) + [d])
  }

  lemma {:induction false} ZeroedText(negative: bool, d: nat)
    requires d < 10
    ensures var t := Zeroed(negative, d); var l := Layout(|t|, |t|);
      && '\0' !in t && !IsHex(t) && !TooLong(t) && Accepts(t, Signed(negative, d)) && (At(t, 0) == '-' <==> negative)
      && Syntax(t, l) && !NoLeadingZeros(Mantissa(t, l), IntegerDigits(t, l)) && IntegerDigits(t, l) == LOG_BASE + 2
  {
    hide Num, TooLong, Accepts, Syntax, Mantissa, IntegerDigits, IsHex;
    var zs := Zeros(LOG_BASE + 1);
    var ds := zs + [d];
    DigitText(if negative then "-" else "", ds);
    CharsAreDigits(ds);
    NumSnoc(zs, d);
    AllZeros(LOG_BASE + 1);
    SecondChunk();
    assert FirstChunk(|ds|) == 2;
    assert Stream(ds, 2) == Zeros(2);
    AllZeros(2);
  }

  lemma SecondChunk()
    ensures FirstChunk(LOG_BASE + 2) == 2 && DigitCount(LOG_BASE + 2) == 2
  {
    Quotient(LOG_BASE + 2 + (LOG_BASE - 1), LOG_BASE, 2, 1);
    if LOG_BASE == 2 {
      assert 4 % 2 == 0;
    } else {
      assert (LOG_BASE + 2) / LOG_BASE == 1 by {
        Quotient(LOG_BASE + 2, LOG_BASE, 1, 2);
      }
    }
  }

  lemma AllZeros(n: nat)
    ensures Num(Zeros(n)) == 0
  {
    NumZeros([], n);
    assert [] + Zeros(n) == Zeros(n);
    assert 0 * Ten(n) == 0;
  }

  /** Texts with zeros at the start become integers with leading zeros, also a zero with a minus sign. */
  method ParseZeroed(negative: bool, d: nat) returns (r: Parsed)
    requires d < 10
    ensures r.Number? && Integers.Ok(r.i) && r.i.Big? && fresh(r.i.x) && !Integers.Trimmed(r.i)
    ensures Integers.Denoted(r.i) == Signed(negative, d) && r.i.x.isNeg == negative && r.i.x.count == 2
  {
    hide Zeroed, Accepts, TooLong, IsHex, Syntax, NoLeadingZeros, Mantissa, IntegerDigits, DigitCount;
    ZeroedText(negative, d);
    SecondChunk();
    r := Parse(Zeroed(negative, d));
    if r.Number? {
      AcceptsOne(Zeroed(negative, d), Signed(negative, d), Integers.Denoted(r.i));
    }
    SmallHaveNone(r);
  }

  lemma SmallHaveNone(r: Parsed)
    ensures r.Number? && r.i.Small? ==> Integers.Trimmed(r.i)
  {
  }

  lemma Seven(y: Integers.Integer)
    requires y == Integers.Small(Tagged.Boxed(7))
    ensures Integers.Ok(y) && Integers.Denoted(y) == 7 && Integers.Size(y) == 1 && !Integers.Negative(y) && Integers.Positive(y)
  {
    Tagged.MachineFacts();
    Integers.SmallWord(7);
    Tagged.BoxUnbox(7);
    DivModD(7, BASE, 1);
  }

  /** A number of at least BASE^2 has more than two digits. */
  lemma {:induction false} ThreeDigits(x: Integers.Integer)
    requires Integers.Ok(x) && Integers.Denoted(x) >= BASE * BASE
    ensures Integers.Size(x) > 2
  {
    hide Val, Pow;
    Integers.TrimmedBounds(x);
    Square();
    if Integers.Size(x) <= 2 {
      PowMonotone(Integers.Size(x), 2);
    }
  }

  lemma Square()
    ensures Pow(2) == BASE * BASE && BASE * BASE >= BASE
  {
    assert Pow(2) == BASE * Pow(1) && Pow(1) == BASE * Pow(0) && Pow(0) == 1;
    MulAtLeast(BASE, 1, BASE, BASE);
  }

  /** With such integers subtraction goes wrong: 5 - 7. */
  method WrongDifference() returns (z: Integers.Integer)
    ensures Integers.Ok(z) && Integers.Denoted(z) == BASE * BASE - 2
  {
    hide Tagged.Unboxed, Tagged.Boxed, Tagged.IsInteger, Tagged.IsSmall, Val, Pow, AllDigits;
    var r := ParseZeroed(false, 5);
    var y := Integers.Small(Tagged.Boxed(7));
    Seven(y);
    LongerAndSmaller(r.i, y);
    Square();
    z := Integers.SubInteger(r.i, y);
  }

  lemma LongerAndSmaller(x: Integers.Integer, y: Integers.Integer)
    requires Integers.Ok(x) && x.Big? && x.x.count == 2 && !x.x.isNeg && Integers.Denoted(x) == 5
    requires Integers.Ok(y) && Integers.Denoted(y) == 7 && Integers.Size(y) == 1 && !Integers.Negative(y)
    ensures Integers.Negative(x) == Integers.Negative(y) == false && Integers.Surplus(x, y) == Pow(2)
  {
    hide Val, Pow;
  }

  /** And division: 7 / 1. */
  method WrongQuotient() returns (defined: bool, d: Integers.Integer, m: Integers.Integer)
    ensures defined && Integers.Ok(d) && Integers.Ok(m) && !Integers.Euclidean(7, 1, Integers.Denoted(d), Integers.Denoted(m))
  {
    hide Tagged.Unboxed, Tagged.Boxed, Tagged.IsInteger, Tagged.IsSmall, Val, Pow, AllDigits;
    var r := ParseZeroed(false, 1);
    var x := Integers.Small(Tagged.Boxed(7));
    Seven(x);
    ShorterAndLarger(x, r.i);
    defined, d, m := Integers.DivModGeneric(x, r.i);
  }

  lemma ShorterAndLarger(x: Integers.Integer, y: Integers.Integer)
    requires Integers.Ok(x) && Integers.Denoted(x) == 7 && Integers.Size(x) == 1 && Integers.Positive(x)
    requires Integers.Ok(y) && y.Big? && y.x.count == 2 && !Integers.Trimmed(y) && Integers.Denoted(y) == 1
    ensures !Integers.Above(x, y) && !Integers.EuclideanExact(x, y)
  {
    hide Val;
  }

  /** A longer dividend makes it a machine division by zero: BASE^2 / 7. */
  method UndefinedDivision() returns (defined: bool, d: Integers.Integer, m: Integers.Integer)
    ensures !defined
  {
    hide Tagged.Unboxed, Tagged.Boxed, Tagged.IsInteger, Tagged.IsSmall, Val, Pow, AllDigits;
    var r := ParseZeroed(false, 7);
    var q := ParsePrinted(BASE * BASE);
    ThreeDigits(q.i);
    LongerDividend(q.i, r.i);
    defined, d, m := Integers.DivModGeneric(q.i, r.i);
  }

  lemma LongerDividend(x: Integers.Integer, y: Integers.Integer)
    requires Integers.Ok(x) && Integers.Size(x) > 2 && Integers.Ok(y) && y.Big? && y.x.count == 2
    ensures Integers.Above(x, y)
  {
    hide Val;
  }

  /** And a zero with a minus sign is corrected as if it were a negative remainder: -0 / BASE^2. */
  method WrongZeroRemainder() returns (defined: bool, d: Integers.Integer, m: Integers.Integer)
    ensures defined && Integers.Ok(d) && Integers.Ok(m) && !Integers.Euclidean(0, BASE * BASE, Integers.Denoted(d), Integers.Denoted(m))
  {
    hide Tagged.Unboxed, Tagged.Boxed, Tagged.IsInteger, Tagged.IsSmall, Val, Pow, AllDigits;
    var r := ParseZeroed(true, 0);
    var q := ParsePrinted(BASE * BASE);
    ThreeDigits(q.i);
    Square();
    ZeroDividend(r.i, q.i);
    defined, d, m := Integers.DivModGeneric(r.i, q.i);
  }

  lemma ZeroDividend(x: Integers.Integer, y: Integers.Integer)
    requires Integers.Ok(x) && x.Big? && x.x.isNeg && x.x.count == 2 && Integers.Denoted(x) == 0
    requires Integers.Ok(y) && Integers.Trimmed(y) && Integers.Size(y) > 2 && Integers.Denoted(y) >= BASE
    ensures Integers.NegativeZero(x) && Integers.KeepsDividend(x, y)
    ensures !Integers.Above(x, y) && !Integers.EuclideanExact(x, y)
  {
    hide Val;
  }
}
