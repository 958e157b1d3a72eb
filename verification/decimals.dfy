/** Decimal notation of integers, and printing them. */
module Decimals {
  import opened Digits
  import opened BigInt

  // ------- decimal digits, most significant first -------

  predicate IsDecimal(ds: seq<nat>) {
    forall i | 0 <= i < |ds| :: ds[i] < 10
  }

  /** The number that a sequence of decimal digits denotes. */
  function Num(ds: seq<nat>): nat {
    if ds == [] then 0 else 10 * Num(ds[..|ds| - 1]) + ds[|ds| - 1]
  }

  lemma NumSnoc(ds: seq<nat>, d: nat)
    ensures Num(ds + [d]) == 10 * Num(ds) + d
  {
    assert (ds + [d])[..|ds|] == ds;
  }

  lemma NumEmpty()
    ensures Num([]) == 0
  {
  }

  lemma {:induction false} NumConcat(a: seq<nat>, b: seq<nat>)
    ensures Num(a + b) == Num(a) * Ten(|b|) + Num(b)
  {
    hide Num;
    if b == [] {
      NumEmpty();
      assert a + b == a;
    } else {
      var n := |b| - 1;
      var c := b[..n];
      NumConcat(a, c);
      assert b == c + [b[n]] && a + b == a + c + [b[n]];
      NumSnoc(c, b[n]);
      NumSnoc(a + c, b[n]);
      TimesTen(Num(a), Ten(n));
    }
  }

  lemma {:induction false} NumBound(ds: seq<nat>)
    requires IsDecimal(ds)
    ensures Num(ds) < Ten(|ds|)
  {
    if ds != [] {
      NumBound(ds[..|ds| - 1]);
    }
  }

  function Zeros(n: nat): (s: seq<nat>)
    ensures |s| == n
  {
    seq(n, i => 0)
  }

  lemma {:induction false} NumZeros(ds: seq<nat>, n: nat)
    ensures Num(ds + Zeros(n)) == Num(ds) * Ten(n)
  {
    hide Num;
    if n == 0 {
      assert ds + Zeros(0) == ds;
    } else {
      NumZeros(ds, n - 1);
      assert ds + Zeros(n) == ds + Zeros(n - 1) + [0];
      NumSnoc(ds + Zeros(n - 1), 0);
      TimesTen(Num(ds), Ten(n - 1));
    }
  }

  lemma TimesTen(a: int, t: int)
    ensures 10 * (a * t) == a * (10 * t)
  {
  }

  lemma {:induction false} TenAdd(m: nat, n: nat)
    ensures Ten(m + n) == Ten(m) * Ten(n)
  {
    if m > 0 {
      TenAdd(m - 1, n);
      Assoc(10, Ten(m - 1), Ten(n));
    }
  }

  /** The decimal notation of `n`, without leading zeros. */
  function Decimal(n: nat): (ds: seq<nat>)
    ensures IsDecimal(ds) && ds != []
  {
    if n < 10 then [n] else Decimal(n / 10) + [n % 10]
  }

  /** The last `n` decimal digits of `d`, with leading zeros. */
  function Padded(d: nat, n: nat): (ds: seq<nat>)
    ensures |ds| == n && IsDecimal(ds)
  {
    if n == 0 then [] else Padded(d / 10, n - 1) + [d % 10]
  }

  lemma {:induction false} NumDecimal(n: nat)
    ensures Num(Decimal(n)) == n
  {
    if n >= 10 {
      NumDecimal(n / 10);
      NumSnoc(Decimal(n / 10), n % 10);
    } else {
      assert [n][..0] == [];
    }
  }

  /** Decimal notation is unique. */
  lemma {:induction false} DecimalNum(ds: seq<nat>)
    requires IsDecimal(ds) && ds != [] && (|ds| > 1 ==> ds[0] != 0)
    ensures Decimal(Num(ds)) == ds
  {
    var n := |ds| - 1;
    assert ds == ds[..n] + [ds[n]];
    if n == 0 {
      assert ds[..0] == [] && ds == [ds[0]];
    } else {
      DecimalNum(ds[..n]);
      NumPositive(ds[..n]);
      assert Num(ds) / 10 == Num(ds[..n]) && Num(ds) % 10 == ds[n];
    }
  }

  lemma {:induction false} NumPositive(ds: seq<nat>)
    requires ds != [] && ds[0] != 0
    ensures Num(ds) > 0
  {
    if |ds| > 1 {
      NumPositive(ds[..|ds| - 1]);
    }
  }

  /** Appending `n` digits to a positive number. */
  lemma {:induction false} DecimalAppend(q: nat, r: nat, n: nat)
    requires q > 0 && r < Ten(n)
    ensures Decimal(q * Ten(n) + r) == Decimal(q) + Padded(r, n)
  {
    if n == 0 {
      assert Decimal(q) + [] == Decimal(q);
    } else {
      var v := q * Ten(n) + r;
      var k := Ten(n - 1);
      assert q * Ten(n) == 10 * (q * k) by {
        assert q * (10 * k) == 10 * (q * k);
      }
      MulAtLeast(q, 1, k, 1);
      assert v == 10 * (q * k + r / 10) + r % 10;
      DecimalAppend(q, r / 10, n - 1);
      assert v / 10 == q * k + r / 10 && v % 10 == r % 10;
      assert Decimal(q) + (Padded(r / 10, n - 1) + [r % 10]) == Decimal(q) + Padded(r / 10, n - 1) + [r % 10];
    }
  }

  /** Padding is leading zeros before the decimal notation. */
  lemma {:induction false} PaddedIsDecimal(d: nat, n: nat)
    requires 0 < d < Ten(n)
    ensures |Decimal(d)| <= n && Padded(d, n) == Zeros(n - |Decimal(d)|) + Decimal(d)
    ensures Decimal(d)[0] != 0
  {
    if d < 10 {
      PaddedZero(n - 1);
    } else {
      PaddedIsDecimal(d / 10, n - 1);
    }
  }

  lemma {:induction false} PaddedZero(n: nat)
    ensures Padded(0, n) == Zeros(n)
  {
    if n > 0 {
      PaddedZero(n - 1);
    }
  }

  // ------- text -------

  function DigitChar(d: nat): char
    requires d < 10
  {
    '0' + d as char
  }

  function Chars(ds: seq<nat>): (s: string)
    requires IsDecimal(ds)
    ensures |s| == |ds|
  {
    seq(|ds|, i requires 0 <= i < |ds| => DigitChar(ds[i]))
  }

  lemma DigitChars(d: nat)
    requires d < 10
    ensures DigitChar(d) == "0123456789"[d]
  {
  }

  /** The text of an integer. */
  function Text(v: int): string {
    if v < 0 then "-" + Chars(Decimal(-v)) else Chars(Decimal(v))
  }

  lemma CharsConcat(a: seq<nat>, b: seq<nat>)
    requires IsDecimal(a) && IsDecimal(b)
    ensures IsDecimal(a + b) && Chars(a + b) == Chars(a) + Chars(b)
  {
  }

  // ------- printing -------

  /** Write all LOG_BASE decimal digits of the digit `d`. */
  method DigitToStrFull(d0: nat, buf: array<char>, at: nat) returns (n: nat)
    requires at + LOG_BASE <= buf.Length
    modifies buf
    ensures n == LOG_BASE && buf[..] == old(buf[..at]) + Chars(Padded(d0, LOG_BASE)) + old(buf[at + LOG_BASE..])
  {
    var d := d0;
    var i: nat := LOG_BASE;
    assert Padded(d0, LOG_BASE)[LOG_BASE..] == [];
    assert Padded(d0, LOG_BASE)[..LOG_BASE] == Padded(d0, LOG_BASE);
    while i > 0
      invariant i <= LOG_BASE && buf[..at + i] == old(buf[..at + i]) && buf[at + LOG_BASE..] == old(buf[at + LOG_BASE..])
      invariant Padded(d0, LOG_BASE)[..i] == Padded(d, i)
      invariant forall k | i <= k < LOG_BASE :: buf[at + k] == DigitChar(Padded(d0, LOG_BASE)[k])
    {
      ghost var p := Padded(d0, LOG_BASE);
      assert p[..i][i - 1] == d % 10 && p[..i][..i - 1] == p[..i - 1];
      i := i - 1;
      buf[at + i] := '0' + (d % 10) as char;
      d := d / 10;
    }
    n := LOG_BASE;
  }

  /** Write the digit `d` without leading zeros, and nothing for zero. */
  method DigitToStrPartial(d: nat, buf: array<char>, at: nat) returns (n: nat)
    requires d < BASE && at + LOG_BASE <= buf.Length
    modifies buf
    ensures d == 0 ==> n == 0 && buf[..] == old(buf[..])
    ensures d > 0 ==> n == |Decimal(d)| <= LOG_BASE && buf[..at + n] == old(buf[..at]) + Chars(Decimal(d))
  {
    if d == 0 {
      return 0;
    }
    var tmp := new char[LOG_BASE];
    var full := DigitToStrFull(d, tmp, 0);
    ghost var zeros := LOG_BASE - |Decimal(d)|;
    PaddedChars(d, tmp[..]);
    var i := SkipZeros(tmp, zeros);
    CopyChars(tmp, i, buf, at);
    n := LOG_BASE - i;
  }

  lemma {:induction false} PaddedChars(d: nat, t: string)
    requires 0 < d < BASE && t == Chars(Padded(d, LOG_BASE))
    ensures |Decimal(d)| <= LOG_BASE
    ensures var zeros := LOG_BASE - |Decimal(d)|;
      (forall k | 0 <= k < zeros :: t[k] == '0') && t[zeros..] == Chars(Decimal(d)) && t[zeros] != '0'
  {
    PaddedIsDecimal(d, LOG_BASE);
    var zeros := Zeros(LOG_BASE - |Decimal(d)|);
    CharsConcat(zeros, Decimal(d));
  }

  method SkipZeros(tmp: array<char>, ghost zeros: nat) returns (i: nat)
    requires zeros < tmp.Length && (forall k | 0 <= k < zeros :: tmp[..][k] == '0') && tmp[..][zeros] != '0'
    ensures i == zeros
  {
    i := 0;
    while i < tmp.Length && tmp[i] == '0'
      invariant i <= zeros
    {
      assert tmp[..][i] == tmp[i];
      i := i + 1;
    }
    assert i < tmp.Length ==> tmp[..][i] == tmp[i];
  }

  method CopyChars(tmp: array<char>, i: nat, buf: array<char>, at: nat)
    requires i <= tmp.Length && at + (tmp.Length - i) <= buf.Length && tmp != buf
    modifies buf
    ensures buf[..at + (tmp.Length - i)] == old(buf[..at]) + tmp[i..]
  {
    var j: nat := i;
    while j < tmp.Length
      invariant i <= j <= tmp.Length && buf[..at + (j - i)] == old(buf[..at]) + tmp[i..j]
    {
      ghost var before := buf[..at + (j - i)];
      buf[at + (j - i)] := tmp[j];
      assert buf[..at + (j - i) + 1] == before + [tmp[j]];
      assert tmp[i..j + 1] == tmp[i..j] + [tmp[j]];
      j := j + 1;
    }
    assert tmp[i..tmp.Length] == tmp[i..];
  }

  /** The announced size: all digits, a sign and the terminator. */
  function Needed(b: Bigint): nat
    reads b
  {
    b.count * LOG_BASE + (if b.isNeg then 1 else 0) + 1
  }

  /** What has been written when the digits from position `i` on are done. */
  ghost predicate Written(t: string, sign: string, digits: seq<nat>, i: nat) {
    && i <= |digits| && Val(digits[i..]) > 0
    && t == sign + Chars(Decimal(Val(digits[i..])))
    && |t| <= |sign| + (|digits| - i) * LOG_BASE
  }

  lemma {:induction false} WriteStep(t: string, sign: string, digits: seq<nat>, i: nat)
    requires Written(t, sign, digits, i) && AllDigits(digits) && i > 0
    ensures Written(t + Chars(Padded(digits[i - 1], LOG_BASE)), sign, digits, i - 1)
  {
    hide Val, Decimal, Padded;
    var d, v := digits[i - 1], Val(digits[i..]);
    assert Digit(d) && digits[i - 1..] == [d] + digits[i..];
    ValCons(d, digits[i..]);
    MulAtLeast(BASE, 1, v, 1);
    DecimalAppend(v, d, LOG_BASE);
    CharsConcat(Decimal(v), Padded(d, LOG_BASE));
    var p := Chars(Padded(d, LOG_BASE));
    assert sign + Chars(Decimal(v)) + p == sign + (Chars(Decimal(v)) + p);
    assert (|digits| - i) * LOG_BASE + LOG_BASE == (|digits| - (i - 1)) * LOG_BASE;
  }

  lemma {:induction false} WriteFirst(sign: string, digits: seq<nat>, i: nat)
    requires AllDigits(digits) && i == |digits| - 1 && digits[i] > 0
    ensures |Decimal(digits[i])| <= LOG_BASE
    ensures Written(sign + Chars(Decimal(digits[i])), sign, digits, i)
  {
    hide Decimal, Padded;
    assert Digit(digits[i]) && digits[i..] == [digits[i]] + [];
    ValCons(digits[i], []);
    PaddedIsDecimal(digits[i], LOG_BASE);
  }

  /** Skip leading zeros. */
  method SkipLeadingZeros(b: Bigint) returns (i: nat)
    requires b.Ok() && b.count > 0
    ensures i < b.count && Val(b.digits[..i + 1]) == b.Abs()
    ensures if b.Abs() > 0 then b.digits[i] > 0 else i == 0 && b.digits[0] == 0
  {
    hide Val, Pow;
    ghost var digits := b.digits[..b.count];
    ValEmpty();
    assert b.digits[..0] == [];
    i := b.count - 1;
    assert digits[..i + 1] == digits;
    while i > 0 && b.digits[i] == 0
      invariant i < b.count && Val(digits[..i + 1]) == b.Abs()
    {
      ValTrim(digits[..i + 1], i);
      assert digits[..i + 1][..i] == digits[..i];
      i := i - 1;
    }
    assert digits[..i + 1] == b.digits[..i + 1];
    if b.digits[i] == 0 {
      ValZeros(digits[..1]);
    } else {
      LeadingDigit(digits[..i + 1]);
    }
  }

  lemma LeadingDigit(s: seq<nat>)
    requires s != [] && AllDigits(s) && s[|s| - 1] != 0
    ensures Val(s) > 0
  {
    ValAtLeast(s);
  }

  /** Print a number into a buffer of the announced size. A zero without any digits takes one
      character more than announced, and of a zero with digits nothing but the sign is printed;
      every other number fits and is printed. */
  method ToBuf(b: Bigint, buf: array<char>) returns (j: nat)
    requires b.Ok() && (b.count == 0 ==> buf.Length != Needed(b))
    modifies buf
    ensures Needed(b) > buf.Length ==> j == Needed(b) && buf[..] == old(buf[..])
    ensures Needed(b) <= buf.Length ==> 0 < j <= buf.Length && buf[j - 1] == '\0' && (j <= Needed(b) <==> b.count > 0)
    ensures Needed(b) <= buf.Length && b.Abs() > 0 ==> buf[..j - 1] == Text(b.Value())
    ensures Needed(b) <= buf.Length && b.Abs() == 0 ==> buf[..j - 1] == (if b.isNeg then "-" else "") + if b.count == 0 then "0" else ""
  {
    hide Val, Pow, Decimal, Padded, Num, Chars;
    if Needed(b) > buf.Length {
      return Needed(b);
    }
    j := 0;
    ghost var sign := "";
    if b.isNeg {
      buf[j] := '-';
      j := j + 1;
      sign := "-";
    }
    assert buf[..j] == sign;
    if b.count == 0 {
      ValEmpty();
      assert b.digits[..0] == [];
      buf[j] := '0';
      j := j + 1;
    } else {
      j := WriteDigits(b, buf, j, sign);
    }
    buf[j] := '\0';
    j := j + 1;
  }

  /** Write all digits of a number; leading zeros, and so a zero, are left out. */
  method WriteDigits(b: Bigint, buf: array<char>, j0: nat, ghost sign: string) returns (j: nat)
    requires b.Ok() && b.count > 0 && j0 + b.count * LOG_BASE < buf.Length && buf[..j0] == sign
    modifies buf
    ensures j <= j0 + b.count * LOG_BASE && buf[..j] == sign + if b.Abs() > 0 then Chars(Decimal(b.Abs())) else ""
  {
    hide Val, Pow, Decimal, Padded, Num, Written, Chars;
    j := j0;
    var i := SkipLeadingZeros(b);
    ghost var digits := b.digits[..i + 1];
    assert AllDigits(digits) && digits[i] == b.digits[i] by {
      PrefixDigits(b.digits, b.count, i + 1);
    }
    Room(i + 1, b.count);
    var n := DigitToStrPartial(b.digits[i], buf, j);
    j := j + n;
    if b.Abs() > 0 {
      WriteFirst(sign, digits, i);
    }
    while i > 0
      invariant i < |digits| && j <= buf.Length
      invariant if b.Abs() > 0 then Written(buf[..j], sign, digits, i) else i == 0 && j == j0 && buf[..j] == sign
    {
      WrittenRoom(buf[..j], sign, digits, i);
      WriteStep(buf[..j], sign, digits, i);
      ghost var before := buf[..j];
      i := i - 1;
      assert digits[i] == b.digits[i];
      n := DigitToStrFull(b.digits[i], buf, j);
      j := j + n;
      assert buf[..j] == before + Chars(Padded(digits[i], LOG_BASE));
    }
    if b.Abs() > 0 {
      WrittenAll(buf[..j], sign, digits);
    }
  }

  lemma Room(n: nat, count: nat)
    requires 0 < n <= count
    ensures LOG_BASE <= n * LOG_BASE <= count * LOG_BASE
  {
    MulAtLeast(n, 1, LOG_BASE, LOG_BASE);
    MulAtLeast(count, n, LOG_BASE, LOG_BASE);
  }

  lemma WrittenRoom(t: string, sign: string, digits: seq<nat>, i: nat)
    requires Written(t, sign, digits, i) && i > 0
    ensures |t| + LOG_BASE <= |sign| + |digits| * LOG_BASE
  {
    MulAtLeast(i, 1, LOG_BASE, LOG_BASE);
    assert (|digits| - i) * LOG_BASE == |digits| * LOG_BASE - i * LOG_BASE;
  }

  lemma WrittenAll(t: string, sign: string, digits: seq<nat>)
    requires Written(t, sign, digits, 0)
    ensures t == sign + Chars(Decimal(Val(digits))) && |t| <= |sign| + |digits| * LOG_BASE
  {
    assert digits[0..] == digits;
  }

  function Reversed(s: string): (r: string)
    ensures |r| == |s|
  {
    seq(|s|, i requires 0 <= i < |s| => s[|s| - 1 - i])
  }

  /** The text of `v` is what is left of it, `n`, followed by the characters `t` in reverse. */
  ghost predicate Reversing(t: string, n: nat, v: nat) {
    Chars(Decimal(v)) == (if n == 0 then "" else Chars(Decimal(n))) + Reversed(t)
  }

  lemma {:induction false} ReverseStep(t: string, n: nat, v: nat)
    requires Reversing(t, n, v) && n > 0
    ensures Reversing(t + [DigitChar(n % 10)], n / 10, v)
  {
    var c := DigitChar(n % 10);
    assert Reversed(t + [c]) == [c] + Reversed(t);
    if n >= 10 {
      CharsConcat(Decimal(n / 10), [n % 10]);
      assert Chars(Decimal(n)) == Chars(Decimal(n / 10)) + [c];
      assert Chars(Decimal(n / 10)) + [c] + Reversed(t) == Chars(Decimal(n / 10)) + ([c] + Reversed(t));
    } else {
      assert Chars(Decimal(n)) == [c];
    }
  }

  /** Print a machine integer (of fewer than 64 decimal digits). */
  method IntToString(n0: int) returns (s: string)
    requires -(Ten(63) as int) < n0 < Ten(63)
    ensures s == Text(n0)
  {
    hide Decimal, Num, Chars, Ten, Reversing, Reversed;
    var buf := new char[64];
    var neg := n0 < 0;
    var n: nat := if neg then -n0 else n0;
    ghost var v := n;
    var i: nat := 0;
    StartReversing(buf[..0], n);
    if n == 0 {
      buf[i] := '0';
      i := i + 1;
      assert buf[..1] == ['0'];
    } else {
      while i < 63 && n != 0
        invariant i <= 63 && n < Ten(63 - i) && Reversing(buf[..i], n, v)
      {
        ReverseStep(buf[..i], n, v);
        TenStep(n, 63 - i);
        ghost var before := buf[..i];
        buf[i] := '0' + (n % 10) as char;
        assert buf[..i + 1] == before + [DigitChar(n % 10)];
        i, n := i + 1, n / 10;
      }
      NothingLeft(buf[..i], n, v, i);
      if neg {
        ghost var before := buf[..i];
        buf[i] := '-';
        i := i + 1;
        assert buf[..i] == before + ['-'];
        ReverseMinus(before);
      }
    }
    ghost var t := buf[..i];
    assert Reversed(t) == Text(n0);
    s := "";
    var j: nat := 0;
    while j < i
      invariant j <= i && buf[..i] == t && s == Reversed(t)[..j]
    {
      ReversedAt(t, j);
      s := s + [buf[i - j - 1]];
      j := j + 1;
    }
    assert s == Reversed(t)[..i] == Reversed(t);
  }

  lemma StartReversing(t: string, n: nat)
    requires t == ""
    ensures n > 0 ==> Reversing(t, n, n)
    ensures n == 0 ==> Reversed(['0']) == Chars(Decimal(0))
  {
  }

  lemma TenStep(n: nat, k: nat)
    requires n < Ten(k) && n > 0
    ensures k > 0 && n / 10 < Ten(k - 1)
  {
  }

  lemma NothingLeft(t: string, n: nat, v: nat, i: nat)
    requires Reversing(t, n, v) && i <= 63 && n < Ten(63 - i) && (i == 63 || n == 0)
    ensures Reversed(t) == Chars(Decimal(v))
  {
  }

  lemma ReverseMinus(t: string)
    ensures Reversed(t + ['-']) == "-" + Reversed(t)
  {
  }

  lemma ReversedAt(t: string, j: nat)
    requires j < |t|
    ensures Reversed(t)[..j + 1] == Reversed(t)[..j] + [t[|t| - j - 1]]
  {
  }
}
