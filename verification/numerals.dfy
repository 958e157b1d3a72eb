/** The numerals that parsing accepts, written out from their parts, and what each of them stands for.
    This does not look at positions in a text, as scanning does. */
module Numerals {
  import opened Digits
  import opened Decimals
  import opened Parsing
  import Integers

  /** No exponent, or a letter, perhaps a plus sign, and decimal digits. */
  datatype Exponent = NoExponent | Exponent(letter: char, plus: bool, digits: seq<nat>)

  /** A sign, groups of digits, groups of digits after the decimal point (if any), and an exponent. */
  datatype Numeral = Numeral(sign: string, whole: seq<seq<nat>>, fraction: seq<seq<nat>>, exponent: Exponent)

  predicate AreGroups(gs: seq<seq<nat>>) {
    forall k | 0 <= k < |gs| :: gs[k] != [] && IsDecimal(gs[k])
  }

  /** There is a digit before the exponent; the digits of the exponent may only be missing after a plus
      sign in a numeral without a fraction. */
  predicate WellFormed(n: Numeral) {
    && (n.sign == "" || n.sign == "+" || n.sign == "-")
    && n.whole != [] && AreGroups(n.whole) && AreGroups(n.fraction)
    && (n.exponent.Exponent? ==>
          (n.exponent.letter == 'e' || n.exponent.letter == 'E') && IsDecimal(n.exponent.digits)
          && (n.exponent.digits == [] ==> n.exponent.plus && n.fraction == []))
  }

  /** Groups of digits are separated by single underscores. */
  function Grouped(gs: seq<seq<nat>>): string
    requires gs != [] && AreGroups(gs)
  {
    if |gs| == 1 then Chars(gs[0]) else Chars(gs[0]) + "_" + Grouped(gs[1..])
  }

  function FractionText(gs: seq<seq<nat>>): string
    requires AreGroups(gs)
  {
    if gs == [] then "" else "." + Grouped(gs)
  }

  function ExponentText(e: Exponent): string
    requires e.Exponent? ==> IsDecimal(e.digits)
  {
    match e
    case NoExponent => ""
    case Exponent(letter, plus, digits) => [letter] + (if plus then "+" else "") + Chars(digits)
  }

  function Written(n: Numeral): string
    requires WellFormed(n)
  {
    n.sign + Grouped(n.whole) + FractionText(n.fraction) + ExponentText(n.exponent)
  }

  function Flat(gs: seq<seq<nat>>): seq<nat> {
    if gs == [] then [] else gs[0] + Flat(gs[1..])
  }

  function Power(e: Exponent): nat {
    if e.NoExponent? then 0 else Num(e.digits)
  }

  /** `v` is the number that is meant: all digits, moved to the left by the exponent and to the right by
      the length of the fraction. */
  predicate Means(n: Numeral, v: int) {
    var m := Num(Flat(n.whole) + Flat(n.fraction)) * Ten(Power(n.exponent));
    v * Ten(|Flat(n.fraction)|) == if n.sign == "-" then -m else m
  }

  // ------- the text of groups of digits -------

  /** Digits, with underscores only in front of digits. */
  predicate IsGrouping(t: string) {
    t != "" && IsDigitChar(t[0]) && forall k | 0 <= k < |t| :: InGroup(t, k)
  }

  lemma {:induction false} DigitsOfConcat(a: string, b: string)
    ensures DigitsOf(a + b) == DigitsOf(a) + DigitsOf(b)
    decreases |b|
  {
    hide DigitsOf;
    if b == "" {
      NoDigitsIn("");
      assert a + b == a;
    } else {
      var n := |b| - 1;
      var last := if IsDigitChar(b[n]) then [DigitOf(b[n])] else [];
      DigitsOfConcat(a, b[..n]);
      LastCharacter(b[..n], b[n], last);
      LastCharacter(a + b[..n], b[n], last);
      assert b == b[..n] + [b[n]] && a + b == a + b[..n] + [b[n]];
      assert DigitsOf(a) + DigitsOf(b[..n]) + last == DigitsOf(a) + (DigitsOf(b[..n]) + last);
    }
  }

  lemma LastCharacter(t: string, c: char, last: seq<nat>)
    requires last == if IsDigitChar(c) then [DigitOf(c)] else []
    ensures DigitsOf(t + [c]) == DigitsOf(t) + last
  {
    assert (t + [c])[..|t|] == t;
  }

  lemma PlainDigits(ds: seq<nat>)
    requires IsDecimal(ds)
    ensures DigitsOf(Chars(ds)) == ds && forall k | 0 <= k < |ds| :: IsDigitChar(Chars(ds)[k])
  {
    DigitsOfChars("", ds);
    assert "" + Chars(ds) == Chars(ds);
    CharsAreDigits(ds);
  }

  lemma {:induction false} GroupedIsGrouping(gs: seq<seq<nat>>)
    requires gs != [] && AreGroups(gs)
    ensures IsGrouping(Grouped(gs)) && DigitsOf(Grouped(gs)) == Flat(gs)
    decreases |gs|
  {
    hide DigitsOf, Chars;
    PlainDigits(gs[0]);
    if |gs| == 1 {
      assert Flat(gs[1..]) == [];
    } else {
      var first, rest := Chars(gs[0]) + "_", Grouped(gs[1..]);
      GroupedIsGrouping(gs[1..]);
      DigitsOfConcat(Chars(gs[0]), "_");
      NoDigitsIn("_");
      DigitsOfConcat(first, rest);
      var t := Grouped(gs);
      forall k | 0 <= k < |t|
        ensures InGroup(t, k)
      {
        if k > |gs[0]| {
          assert InGroup(rest, k - |first|) && t[k] == rest[k - |first|];
        }
      }
    }
  }

  lemma NoDigitsIn(t: string)
    requires |t| <= 1 && (t != "" ==> !IsDigitChar(t[0]))
    ensures DigitsOf(t) == []
  {
  }

  // ------- every numeral is read as what it means -------

  /** The parts of the text of a numeral. */
  function Head(n: Numeral): string
    requires WellFormed(n)
  {
    n.sign + Grouped(n.whole)
  }

  function Body(n: Numeral): string
    requires WellFormed(n)
  {
    Head(n) + FractionText(n.fraction)
  }

  function LayoutOf(n: Numeral): Layout
    requires WellFormed(n)
  {
    Layout(|Head(n)|, |Body(n)|)
  }

  lemma GroupShifted(s: string, i: nat, t: string)
    requires IsGrouping(t) && i + |t| <= |s| && s[i..i + |t|] == t
    ensures Group(s, i, i + |t|) && At(s, i) == t[0]
  {
    forall k | i <= k < i + |t|
      ensures InGroup(s, k)
    {
      assert InGroup(t, k - i) && s[k] == t[k - i];
      if k + 1 < i + |t| {
        assert s[k + 1] == t[k + 1 - i];
      }
    }
    assert s[i] == t[0];
  }

  lemma {:induction false} StartsRight(n: Numeral, s: string)
    requires WellFormed(n) && s == Written(n)
    ensures Start(s) == |n.sign| && (At(s, 0) == '-' <==> n.sign == "-")
    ensures IsDigitChar(At(s, Start(s))) && |Head(n)| <= |s| && Group(s, Start(s), |Head(n)|)
  {
    hide Grouped, DigitsOf, Flat;
    var g := Grouped(n.whole);
    GroupedIsGrouping(n.whole);
    assert s[|n.sign|..|n.sign| + |g|] == g;
    GroupShifted(s, |n.sign|, g);
  }

  lemma WrittenParts(n: Numeral)
    requires WellFormed(n)
    ensures Written(n) == Head(n) + FractionText(n.fraction) + ExponentText(n.exponent) && Body(n) == Head(n) + FractionText(n.fraction)
    ensures n.fraction == [] ==> FractionText(n.fraction) == ""
    ensures n.fraction != [] ==> FractionText(n.fraction) == "." + Grouped(n.fraction)
    ensures ExponentText(n.exponent) != "" ==> ExponentText(n.exponent)[0] != '.'
  {
    hide Grouped;
  }

  lemma AfterHead(s: string, a: string, x: string)
    requires s == a + x
    ensures At(s, |a|) == if x == "" then '\0' else x[0]
  {
  }

  lemma AfterDot(s: string, a: string, f: string, x: string)
    requires s == a + ("." + f) + x && IsGrouping(f)
    ensures At(s, |a|) == '.' && |a| + 1 + |f| <= |s| && IsDigitChar(At(s, |a| + 1)) && Group(s, |a| + 1, |a| + 1 + |f|)
  {
    hide Group, InGroup;
    assert s[|a| + 1..|a| + 1 + |f|] == f;
    GroupShifted(s, |a| + 1, f);
  }

  lemma {:induction false} FractionRight(n: Numeral, s: string)
    requires WellFormed(n) && s == Written(n)
    ensures |Head(n)| <= |Body(n)| <= |s|
    ensures if n.fraction == [] then |Body(n)| == |Head(n)| && At(s, |Head(n)|) != '.'
            else At(s, |Head(n)|) == '.' && |Head(n)| < |Body(n)| && IsDigitChar(At(s, |Head(n)| + 1))
                 && Group(s, |Head(n)| + 1, |Body(n)|)
  {
    hide Grouped, DigitsOf, Flat, Head, Body, Written, FractionText, ExponentText, IsGrouping, At, Group;
    WrittenParts(n);
    if n.fraction == [] {
      assert s == Head(n) + ExponentText(n.exponent);
      AfterHead(s, Head(n), ExponentText(n.exponent));
    } else {
      GroupedIsGrouping(n.fraction);
      AfterDot(s, Head(n), Grouped(n.fraction), ExponentText(n.exponent));
    }
  }

  lemma {:induction false} ExponentRight(n: Numeral, s: string)
    requires WellFormed(n) && s == Written(n)
    ensures |Body(n)| <= |s| && (|Body(n)| == |s| <==> n.exponent.NoExponent?)
    ensures AtExponent(s, |Body(n)|, n.fraction != [])
    ensures n.exponent.Exponent? ==>
      var p := ExpStart(s, |Body(n)|);
      p <= |s| && s[p..] == Chars(n.exponent.digits) && AllDigitChars(s, p, |s|)
  {
    hide Grouped, FractionText;
    var end := |Body(n)|;
    assert s == Body(n) + ExponentText(n.exponent);
    if n.exponent.Exponent? {
      var es := n.exponent.digits;
      PlainDigits(es);
      var p := end + if n.exponent.plus then 2 else 1;
      assert s[p..] == Chars(es);
      assert forall k | p <= k < |s| :: s[k] == Chars(es)[k - p];
      assert s[end] == n.exponent.letter;
      if n.exponent.plus {
        assert s[end + 1] == '+';
      } else {
        assert s[end + 1] == Chars(es)[0];
      }
    }
  }

  lemma {:induction false} WrittenLayout(n: Numeral)
    requires WellFormed(n)
    ensures Syntax(Written(n), LayoutOf(n))
  {
    hide Grouped, FractionText, ExponentText, Written, Head, Body;
    StartsRight(n, Written(n));
    FractionRight(n, Written(n));
    ExponentRight(n, Written(n));
  }

  lemma {:induction false} WrittenDigits(n: Numeral, s: string)
    requires WellFormed(n) && s == Written(n)
    ensures |Head(n)| <= |Body(n)| <= |s|
    ensures DigitsOf(s[..|Head(n)|]) == Flat(n.whole)
    ensures DigitsOf(s[..|Body(n)|]) == Flat(n.whole) + Flat(n.fraction)
  {
    hide Grouped, DigitsOf, Flat;
    assert s[..|Head(n)|] == Head(n) && s[..|Body(n)|] == Body(n);
    NoDigitsIn(n.sign);
    GroupedIsGrouping(n.whole);
    DigitsOfConcat(n.sign, Grouped(n.whole));
    DigitsOfConcat(Head(n), FractionText(n.fraction));
    FractionDigits(n.fraction);
  }

  lemma {:induction false} FractionDigits(gs: seq<seq<nat>>)
    requires AreGroups(gs)
    ensures DigitsOf(FractionText(gs)) == Flat(gs)
  {
    hide Grouped;
    if gs != [] {
      GroupedIsGrouping(gs);
      NoDigitsIn(".");
      DigitsOfConcat(".", Grouped(gs));
    }
  }

  lemma {:induction false} WrittenPower(n: Numeral)
    requires WellFormed(n)
    ensures ExponentOf(Written(n), LayoutOf(n)) == Power(n.exponent)
  {
    hide Grouped, FractionText, ExponentText, Written, Head, Body, DigitsOf, Num;
    ExponentRight(n, Written(n));
    if n.exponent.Exponent? {
      PlainDigits(n.exponent.digits);
    }
  }

  /** The values of the text of a numeral are the numbers that are meant, unless the exponent is above
      the largest that is accepted. */
  lemma {:induction false} WrittenMeans(n: Numeral, v: int)
    requires WellFormed(n)
    ensures Accepts(Written(n), v) <==> Power(n.exponent) <= BASE && Means(n, v)
  {
    hide Written, Head, Body, Flat, Num, Ten, DigitsOf, Syntax;
    var s, l := Written(n), LayoutOf(n);
    WrittenLayout(n);
    WrittenDigits(n, s);
    WrittenPower(n);
    StartsRight(n, s);
    assert Denotes(s, l, v) <==> Means(n, v);
    SingleLayout(s, l);
  }

  lemma SingleLayout(s: string, l: Layout)
    requires Syntax(s, l)
    ensures forall l' | Syntax(s, l') :: l' == l
  {
    forall l' | Syntax(s, l')
      ensures l' == l
    {
      OneLayout(s, l, l');
    }
  }

  lemma {:induction false} WrittenIsPlain(n: Numeral)
    requires WellFormed(n)
    ensures '\0' !in Written(n) && !IsHex(Written(n))
  {
    hide Written, Head, Body, Flat, Num, Ten, DigitsOf;
    var s, l := Written(n), LayoutOf(n);
    WrittenLayout(n);
    LayoutIsPlain(s, l);
  }

  /** All characters of a text with a layout belong to some part of it. */
  lemma {:induction false} LayoutIsPlain(s: string, l: Layout)
    requires Syntax(s, l)
    ensures '\0' !in s && !IsHex(s)
  {
    forall k | 0 <= k < |s|
      ensures s[k] != '\0'
    {
      if Start(s) <= k < l.dot || l.dot < k < l.end {
        assert InGroup(s, k);
      }
    }
    EndsOutside(s, l);
    if Start(s) + 1 < l.dot {
      assert InGroup(s, Start(s) + 1);
    }
  }

  lemma {:induction false} ExponentFits(n: Numeral)
    requires WellFormed(n) && Power(n.exponent) <= BASE
    ensures !TooLong(Written(n))
  {
    hide Written, Head, Body, Flat, Num, Ten, DigitsOf, Overflows;
    var s, l := Written(n), LayoutOf(n);
    WrittenLayout(n);
    ExponentRight(n, s);
    if n.exponent.Exponent? {
      PlainDigits(n.exponent.digits);
      Fits(s, ExpStart(s, l.end));
    }
    forall l' ensures !TooLongAt(s, l') {
      if Shape(s, l') {
        OneLayout(s, l, l');
      }
    }
  }

  /** Parsing a numeral gives the integer that is meant, whenever there is one. */
  method ParseNumeral(n: Numeral) returns (r: Parsed)
    requires WellFormed(n) && Power(n.exponent) <= BASE
    ensures r.Number? || r.Rejected?
    ensures r.Number? ==> Integers.Ok(r.i) && Means(n, Integers.Denoted(r.i))
    ensures r.Rejected? ==> forall v :: !Means(n, v)
  {
    hide Written, Means, Accepts, IsHex, TooLong, Power;
    WrittenIsPlain(n);
    ExponentFits(n);
    r := Parse(Written(n));
    forall v ensures Accepts(Written(n), v) <==> Means(n, v) {
      WrittenMeans(n, v);
    }
  }

  /** In particular digits, perhaps with a sign and a fraction, followed by an exponent. */
  lemma {:induction false} WithExponent(sign: string, ds: seq<nat>, fs: seq<nat>, e: char, plus: bool, es: seq<nat>, v: int)
    requires (sign == "" || sign == "+" || sign == "-") && ds != [] && IsDecimal(ds) && IsDecimal(fs)
    requires (e == 'e' || e == 'E') && es != [] && IsDecimal(es)
    ensures var t := sign + Chars(ds) + (if fs == [] then "" else "." + Chars(fs)) + ([e] + (if plus then "+" else "") + Chars(es));
      var m := Num(ds + fs) * Ten(Num(es));
      Accepts(t, v) <==> Num(es) <= BASE && v * Ten(|fs|) == if sign == "-" then -m else m
  {
    hide Num, Ten, Chars, Accepts;
    var n := Numeral(sign, [ds], if fs == [] then [] else [fs], Exponent(e, plus, es));
    OneGroup(ds);
    FlatOne(ds);
    if fs != [] {
      OneGroup(fs);
      FlatOne(fs);
    }
    WrittenMeans(n, v);
  }

  lemma FlatOne(g: seq<nat>)
    ensures Flat([g]) == g && Flat([]) == []
  {
    assert [g][1..] == [];
  }

  lemma Hundred(v: int)
    ensures Accepts("1e2", v) <==> v == 100
  {
    hide Accepts;
    assert Num([1]) == 1 && Num([2]) == 2 by {
      assert [1][..0] == [] && [2][..0] == [];
    }
    WithExponent("", [1], [], 'e', false, [2], v);
    assert [1] + [] == [1];
    assert Chars([1]) == "1" && Chars([2]) == "2";
    assert "" + "1" + "" + (['e'] + "" + "2") == "1e2";
    assert Ten(0) == 1 && Ten(1) == 10 && Ten(2) == 100;
  }

  /** What is left to the parser of hexadecimal numbers: a zero and the letter x, perhaps after a sign. */
  lemma {:induction false} HexTexts(s: string)
    ensures IsHex(s) <==> exists sign: string, x: char, t: string ::
      (sign == "" || sign == "+" || sign == "-") && (x == 'x' || x == 'X') && s == sign + ['0', x] + t
  {
    if IsHex(s) {
      var i := Start(s);
      assert s == s[..i] + ['0', s[i + 1]] + s[i + 2..];
    }
  }

  // ------- and nothing else is accepted -------

  /** The groups of digits in a text. */
  function Groups(t: string): (gs: seq<seq<nat>>)
    requires IsGrouping(t)
    ensures gs != [] && AreGroups(gs)
  {
    var d := DigitOf(t[0]);
    if |t| == 1 then [[d]]
    else
      assert InGroup(t, 0) && InGroup(t, 1);
      if t[1] == '_' then
        DropsToGrouping(t, 2);
        [[d]] + Groups(t[2..])
      else
        DropsToGrouping(t, 1);
        var rest := Groups(t[1..]);
        [[d] + rest[0]] + rest[1..]
  }

  lemma DropsToGrouping(t: string, i: nat)
    requires IsGrouping(t) && i < |t| && IsDigitChar(t[i])
    ensures IsGrouping(t[i..])
  {
    forall k | 0 <= k < |t[i..]|
      ensures InGroup(t[i..], k)
    {
      assert InGroup(t, i + k);
    }
  }

  lemma {:induction false} GroupsWritten(t: string)
    requires IsGrouping(t)
    ensures Grouped(Groups(t)) == t
    decreases |t|
  {
    hide Grouped, InGroup, DigitsOf;
    var d := DigitOf(t[0]);
    OneDigitText(t[0]);
    if |t| == 1 {
      OneGroup([d]);
    } else {
      NextIn(t);
      if t[1] == '_' {
        GroupsWritten(t[2..]);
        NewGroup([d], Groups(t[2..]));
        assert t == [t[0]] + "_" + t[2..];
      } else {
        GroupsWritten(t[1..]);
        LongerGroup(d, Groups(t[1..]));
        assert t == [t[0]] + t[1..];
      }
    }
  }

  lemma OneDigitText(c: char)
    requires IsDigitChar(c)
    ensures Chars([DigitOf(c)]) == [c]
  {
  }

  lemma NextIn(t: string)
    requires IsGrouping(t) && |t| > 1
    ensures if t[1] == '_' then |t| > 2 && IsGrouping(t[2..]) else IsGrouping(t[1..])
  {
    assert InGroup(t, 0) && InGroup(t, 1);
    DropsToGrouping(t, if t[1] == '_' then 2 else 1);
  }

  lemma OneGroup(g: seq<nat>)
    requires g != [] && IsDecimal(g)
    ensures Grouped([g]) == Chars(g)
  {
  }

  lemma NewGroup(g: seq<nat>, gs: seq<seq<nat>>)
    requires g != [] && IsDecimal(g) && gs != [] && AreGroups(gs)
    ensures Grouped([g] + gs) == Chars(g) + "_" + Grouped(gs)
  {
    assert ([g] + gs)[1..] == gs;
  }

  lemma LongerGroup(d: nat, gs: seq<seq<nat>>)
    requires d < 10 && gs != [] && AreGroups(gs)
    ensures AreGroups([[d] + gs[0]] + gs[1..]) && Grouped([[d] + gs[0]] + gs[1..]) == Chars([d]) + Grouped(gs)
  {
    hide Chars, Grouped;
    CharsConcat([d], gs[0]);
    if |gs| > 1 {
      NewGroup([d] + gs[0], gs[1..]);
      NewGroup(gs[0], gs[1..]);
      assert gs == [gs[0]] + gs[1..];
      Reassociate(Chars([d]), Chars(gs[0]), "_" + Grouped(gs[1..]));
    } else {
      assert gs == [gs[0]] && [[d] + gs[0]] + gs[1..] == [[d] + gs[0]];
      OneGroup([d] + gs[0]);
      OneGroup(gs[0]);
    }
  }

  lemma Reassociate(a: string, b: string, c: string)
    ensures a + b + c == a + (b + c)
  {
  }

  lemma {:induction false} CharsOfDigits(t: string)
    requires forall k | 0 <= k < |t| :: IsDigitChar(t[k])
    ensures Chars(DigitsOf(t)) == t
  {
    if t != "" {
      var n := |t| - 1;
      CharsOfDigits(t[..n]);
      CharsConcat(DigitsOf(t[..n]), [DigitOf(t[n])]);
      assert Chars([DigitOf(t[n])]) == [t[n]];
      assert t == t[..n] + [t[n]];
    }
  }

  lemma SliceIsGrouping(s: string, i: nat, j: nat)
    requires i <= j <= |s| && Group(s, i, j) && IsDigitChar(At(s, i)) && !InGroup(s, j)
    ensures i < j && IsGrouping(s[i..j])
  {
    assert i == j ==> InGroup(s, i);
    forall k | 0 <= k < j - i
      ensures InGroup(s[i..j], k)
    {
      assert InGroup(s, i + k);
    }
  }

  /** The numeral that a text with a layout is. */
  function NumeralOf(s: string, l: Layout): (n: Numeral)
    requires Syntax(s, l)
    ensures WellFormed(n)
  {
    EndsOutside(s, l);
    SliceIsGrouping(s, Start(s), l.dot);
    var fraction :=
      if l.end == l.dot then []
      else (SliceIsGrouping(s, l.dot + 1, l.end); Groups(s[l.dot + 1..l.end]));
    var exponent :=
      if l.end == |s| then NoExponent
      else Exponent(s[l.end], At(s, l.end + 1) == '+', DigitsOf(s[ExpStart(s, l.end)..]));
    assert l.end < |s| && At(s, l.end + 1) != '+' ==> DigitsOf(s[l.end + 1..]) != [] by {
      if l.end < |s| && At(s, l.end + 1) != '+' {
        CharsOfDigits(s[l.end + 1..]);
      }
    }
    assert l.end < |s| && l.end != l.dot && At(s, l.end + 1) == '+' ==> DigitsOf(s[l.end + 2..]) != [] by {
      if l.end < |s| && l.end != l.dot && At(s, l.end + 1) == '+' {
        CharsOfDigits(s[l.end + 2..]);
      }
    }
    Numeral(s[..Start(s)], Groups(s[Start(s)..l.dot]), fraction, exponent)
  }

  /** Every text with a layout is the text of a numeral. */
  lemma {:induction false} AllWritten(s: string, l: Layout)
    requires Syntax(s, l)
    ensures Written(NumeralOf(s, l)) == s
  {
    hide Groups, Grouped, DigitsOf, Chars, FractionText, ExponentText, IsGrouping;
    WholeWritten(s, l);
    FractionWritten(s, l);
    ExponentWritten(s, l);
    FourParts(s, Start(s), l.dot, l.end);
  }

  lemma FourParts(s: string, i: nat, j: nat, k: nat)
    requires i <= j <= k <= |s|
    ensures s[..i] + s[i..j] + s[j..k] + s[k..] == s
  {
    assert s[..i] + s[i..j] == s[..j];
    assert s[..j] + s[j..k] == s[..k];
  }

  lemma {:induction false} WholeWritten(s: string, l: Layout)
    requires Syntax(s, l)
    ensures Grouped(NumeralOf(s, l).whole) == s[Start(s)..l.dot]
  {
    hide Groups, Grouped, DigitsOf, Chars;
    EndsOutside(s, l);
    SliceIsGrouping(s, Start(s), l.dot);
    GroupsWritten(s[Start(s)..l.dot]);
  }

  lemma {:induction false} FractionWritten(s: string, l: Layout)
    requires Syntax(s, l)
    ensures FractionText(NumeralOf(s, l).fraction) == s[l.dot..l.end]
  {
    hide Groups, Grouped, DigitsOf, Chars;
    if l.end != l.dot {
      EndsOutside(s, l);
      SliceIsGrouping(s, l.dot + 1, l.end);
      GroupsWritten(s[l.dot + 1..l.end]);
      assert s[l.dot..l.end] == "." + s[l.dot + 1..l.end];
    }
  }

  lemma {:induction false} ExponentWritten(s: string, l: Layout)
    requires Syntax(s, l)
    ensures ExponentText(NumeralOf(s, l).exponent) == s[l.end..]
  {
    hide Groups, Grouped, DigitsOf, Chars;
    if l.end < |s| {
      var p := ExpStart(s, l.end);
      CharsOfDigits(s[p..]);
      assert s[l.end..] == [s[l.end]] + (if At(s, l.end + 1) == '+' then "+" else "") + s[p..];
    }
  }

  /** The texts with a value are exactly the numerals, with what they mean, whose exponent is not above
      the largest that is accepted. */
  lemma {:induction false} OnlyNumerals(s: string, v: int)
    ensures Accepts(s, v) <==> exists n :: WellFormed(n) && Written(n) == s && Power(n.exponent) <= BASE && Means(n, v)
  {
    hide Written, WellFormed, Means;
    if Accepts(s, v) {
      AcceptedIsNumeral(s, v);
    }
    if n :| WellFormed(n) && Written(n) == s && Power(n.exponent) <= BASE && Means(n, v) {
      WrittenMeans(n, v);
    }
  }

  lemma AcceptedIsNumeral(s: string, v: int)
    requires Accepts(s, v)
    ensures exists n :: WellFormed(n) && Written(n) == s && Power(n.exponent) <= BASE && Means(n, v)
  {
    hide Written, WellFormed, Means, Power;
    var l :| Syntax(s, l) && ExponentOf(s, l) <= BASE && Denotes(s, l, v);
    var n := NumeralOf(s, l);
    AllWritten(s, l);
    WrittenMeans(n, v);
  }
}
