/** Tolerant conversion to UTF-8: any sequence of bytes becomes a well-formed string, where each byte
    that is not part of a valid sequence is represented by a code point of a reserved "raw" range. */
module Utf8 {

  type byte = x: int | 0 <= x < 256

  const RAW_PLANE: int := 0xE0000
  const RAW_UTF8_OFS: int := RAW_PLANE + 0xE000
  const RAW_UTF16_OFS: int := RAW_PLANE
  const REPLACEMENT: int := 0xFFFD

  // ------- well-formed UTF-8, as in RFC 3629 -------

  predicate Scalar(c: int) {
    0 <= c <= 0xD7FF || 0xE000 <= c <= 0x10FFFF
  }

  /** The encoding of section 3 of RFC 3629. */
  function Encode(c: int): (s: seq<byte>)
    requires Scalar(c)
    ensures 1 <= |s| <= 4
  {
    if c <= 0x7F then [c]
    else if c <= 0x7FF then [0xC0 + c / 64, 0x80 + c % 64]
    else if c <= 0xFFFF then [0xE0 + c / 4096, 0x80 + c / 64 % 64, 0x80 + c % 64]
    else [0xF0 + c / 262144, 0x80 + c / 4096 % 64, 0x80 + c / 64 % 64, 0x80 + c % 64]
  }

  /** Groups of six bits `p`, `q`, `r` and `t` of a character are spread over its bytes; the first byte
      says how many there are. */
  lemma {:induction false} EncodedBits(p: nat, q: nat, r: nat, t: nat)
    requires p < 64 && q < 64 && r < 64 && t < 64
    ensures 0x80 <= p * 64 + q <= 0x7FF ==> Encode(p * 64 + q) == [0xC0 + p, 0x80 + q]
    ensures 0x800 <= (p * 64 + q) * 64 + r <= 0xFFFF && Scalar((p * 64 + q) * 64 + r) ==>
      Encode((p * 64 + q) * 64 + r) == [0xE0 + p, 0x80 + q, 0x80 + r]
    ensures 0x1_0000 <= ((p * 64 + q) * 64 + r) * 64 + t <= 0x10_FFFF ==>
      Encode(((p * 64 + q) * 64 + r) * 64 + t) == [0xF0 + p, 0x80 + q, 0x80 + r, 0x80 + t]
  {
    Split(p, q);
    Split(p * 64 + q, r);
    Split((p * 64 + q) * 64 + r, t);
    Shifts(p * 64 + q);
    Shifts((p * 64 + q) * 64 + r);
    Shifts(((p * 64 + q) * 64 + r) * 64 + t);
  }

  function EncodeAll(cs: seq<int>): seq<byte>
    requires forall c | c in cs :: Scalar(c)
  {
    if cs == [] then [] else Encode(cs[0]) + EncodeAll(cs[1..])
  }

  ghost predicate WellFormed(s: seq<byte>) {
    exists cs: seq<int> :: (forall c | c in cs :: Scalar(c)) && s == EncodeAll(cs)
  }

  // ------- writing a character -------

  function Len(c: nat): nat {
    if c <= 0x7F then 1
    else if c <= 0x7FF then 2
    else
      var c := if 0xD800 <= c <= 0xDFFF then c + RAW_UTF16_OFS else if c > 0x10FFFF then REPLACEMENT else c;
      if c <= 0xFFFF then 3 else 4
  }

  /** What stands for `c` in a string: surrogate halves go to the raw range. */
  function Representable(c: nat): (r: int)
    ensures Scalar(r)
  {
    if 0xD800 <= c <= 0xDFFF then c + RAW_UTF16_OFS else if c > 0x10FFFF then REPLACEMENT else c
  }

  method Write(c: nat, t: array<byte>, i: nat) returns (count: nat)
    requires i + Len(c) <= t.Length
    modifies t
    ensures count == Len(c) == |Encode(Representable(c))|
    ensures t[..] == old(t[..i]) + Encode(Representable(c)) + old(t[i + count..])
  {
    if c <= 0x7F {
      count := 1;
      t[i] := c;
      return;
    }
    if c <= 0x7FF {
      count := 2;
      t[i] := 0xC0 + c / 64;
      t[i + 1] := 0x80 + c % 64;
      return;
    }
    var c' := c;
    if 0xD800 <= c' <= 0xDFFF {
      c' := c' + RAW_UTF16_OFS;
    } else if c' > 0x10FFFF {
      c' := REPLACEMENT;
    }
    if c' <= 0xFFFF {
      count := 3;
      t[i] := 0xE0 + c' / 4096;
      t[i + 1] := 0x80 + c' / 64 % 64;
      t[i + 2] := 0x80 + c' % 64;
    } else {
      count := 4;
      t[i] := 0xF0 + c' / 262144;
      t[i + 1] := 0x80 + c' / 4096 % 64;
      t[i + 2] := 0x80 + c' / 64 % 64;
      t[i + 3] := 0x80 + c' % 64;
    }
  }

  // ------- reading a character -------

  /** The bytes are followed by a zero. */
  function At(s: seq<byte>, i: nat): byte {
    if i < |s| then s[i] else 0
  }

  predicate IsCont(b: byte) {
    0x80 <= b <= 0xBF
  }

  predicate IsRaw(c: int) {
    RAW_PLANE + 0xD800 <= c <= RAW_PLANE + 0xE0FF
  }

  /** A character, the bytes it takes, and the bytes needed to represent it if it was invalid. */
  datatype Reading = Reading(c: int, count: nat, vcount: nat)

  /** Two, three and four bytes that encode one character: no overlong forms, no surrogate halves,
      nothing above 0x10FFFF. */
  predicate Two(b: byte, b1: byte) {
    0xC2 <= b <= 0xDF && IsCont(b1)
  }

  predicate Three(b: byte, b1: byte, b2: byte) {
    || (b == 0xE0 && 0xA0 <= b1 <= 0xBF && IsCont(b2))
    || (0xE1 <= b <= 0xEF && b != 0xED && IsCont(b1) && IsCont(b2))
    || (b == 0xED && 0x80 <= b1 <= 0x9F && IsCont(b2))
  }

  predicate Four(b: byte, b1: byte, b2: byte, b3: byte) {
    || (b == 0xF0 && 0x90 <= b1 <= 0xBF && IsCont(b2) && IsCont(b3))
    || (0xF1 <= b <= 0xF3 && IsCont(b1) && IsCont(b2) && IsCont(b3))
    || (b == 0xF4 && 0x80 <= b1 <= 0x8F && IsCont(b2) && IsCont(b3))
  }

  function Value2(b: byte, b1: byte): int {
    (b % 32) * 64 + b1 % 64
  }

  function Value3(b: byte, b1: byte, b2: byte): int {
    (b % 16) * 4096 + (b1 % 64) * 64 + b2 % 64
  }

  function Value4(b: byte, b1: byte, b2: byte, b3: byte): int {
    (b % 8) * 262144 + (b1 % 64) * 4096 + (b2 % 64) * 64 + b3 % 64
  }

  /** Read at position `i`; with `identity` the characters of the raw range count as invalid. */
  function Read(s: seq<byte>, i: nat, identity: bool): Reading {
    var b, b1, b2, b3 := At(s, i), At(s, i + 1), At(s, i + 2), At(s, i + 3);
    if b <= 0x7F then Reading(b, 1, 0)
    else if Two(b, b1) then Reading(Value2(b, b1), 2, 0)
    else if Three(b, b1, b2) then Reading(Value3(b, b1, b2), 3, 0)
    else if Four(b, b1, b2, b3) && (!identity || !IsRaw(Value4(b, b1, b2, b3))) then Reading(Value4(b, b1, b2, b3), 4, 0)
    else Reading(RAW_UTF8_OFS + b, 1, 4)
  }

  /** Taking `q` and `r` apart again. */
  lemma Split(q: nat, r: nat)
    requires r < 64
    ensures (q * 64 + r) / 64 == q && (q * 64 + r) % 64 == r
  {
  }

  /** The bits of the bytes of a sequence. */
  lemma Bits(b: byte)
    ensures 0x80 <= b <= 0xBF ==> b % 64 == b - 0x80
    ensures 0xC0 <= b <= 0xDF ==> b % 32 == b - 0xC0
    ensures 0xE0 <= b <= 0xEF ==> b % 16 == b - 0xE0
    ensures 0xF0 <= b <= 0xF7 ==> b % 8 == b - 0xF0
  {
  }

  lemma Shifts(c: nat)
    ensures c / 4096 == c / 64 / 64 && c / 262144 == c / 64 / 64 / 64
  {
  }

  lemma Decode2(b: byte, b1: byte)
    requires Two(b, b1)
    ensures 0x80 <= Value2(b, b1) <= 0x7FF && Encode(Value2(b, b1)) == [b, b1]
  {
    Bits(b);
    Bits(b1);
    Split(b - 0xC0, b1 - 0x80);
  }

  lemma Decode3(b: byte, b1: byte, b2: byte)
    requires Three(b, b1, b2)
    ensures 0x800 <= Value3(b, b1, b2) <= 0xFFFF && Scalar(Value3(b, b1, b2)) && Encode(Value3(b, b1, b2)) == [b, b1, b2]
  {
    hide Encode;
    Bits(b);
    Bits(b1);
    Bits(b2);
    var q := (b - 0xE0) * 64 + (b1 - 0x80);
    var c := q * 64 + (b2 - 0x80);
    assert Value3(b, b1, b2) == c;
    Split(b - 0xE0, b1 - 0x80);
    Split(q, b2 - 0x80);
    EncodeByShifts(c);
  }

  lemma Decode4(b: byte, b1: byte, b2: byte, b3: byte)
    requires Four(b, b1, b2, b3)
    ensures 0x10000 <= Value4(b, b1, b2, b3) <= 0x10FFFF && Encode(Value4(b, b1, b2, b3)) == [b, b1, b2, b3]
  {
    hide Encode;
    Bits(b);
    Bits(b1);
    Bits(b2);
    Bits(b3);
    var q := (b - 0xF0) * 64 + (b1 - 0x80);
    var r := q * 64 + (b2 - 0x80);
    var c := r * 64 + (b3 - 0x80);
    assert Value4(b, b1, b2, b3) == c;
    Split(b - 0xF0, b1 - 0x80);
    Split(q, b2 - 0x80);
    Split(r, b3 - 0x80);
    EncodeByShifts(c);
  }

  /** The bytes of an encoding, six bits at a time. */
  lemma EncodeByShifts(c: int)
    requires Scalar(c) && c >= 0x800
    ensures var q := c / 64; var p := q / 64;
      Encode(c) == if c <= 0xFFFF then [0xE0 + p, 0x80 + q % 64, 0x80 + c % 64]
                   else [0xF0 + p / 64, 0x80 + p % 64, 0x80 + q % 64, 0x80 + c % 64]
  {
    Shifts(c);
  }

  lemma Encode2(c: int)
    requires 0x80 <= c <= 0x7FF
    ensures var e := Encode(c); |e| == 2 && Two(e[0], e[1]) && Value2(e[0], e[1]) == c
  {
  }

  lemma Encode3(c: int)
    requires 0x800 <= c <= 0xFFFF && Scalar(c)
    ensures var e := Encode(c); |e| == 3 && Three(e[0], e[1], e[2]) && Value3(e[0], e[1], e[2]) == c
  {
    assert c == c / 64 * 64 + c % 64 && c / 64 == c / 4096 * 64 + c / 64 % 64;
  }

  lemma Encode4(c: int)
    requires 0x10000 <= c <= 0x10FFFF
    ensures var e := Encode(c); |e| == 4 && Four(e[0], e[1], e[2], e[3]) && Value4(e[0], e[1], e[2], e[3]) == c
  {
    assert c == c / 64 * 64 + c % 64 && c / 64 == c / 4096 * 64 + c / 64 % 64 && c / 4096 == c / 262144 * 64 + c / 4096 % 64;
  }

  // ------- any sequence of bytes is a sequence of characters and stray bytes -------

  datatype Token = Char(c: int) | Stray(b: byte)

  predicate IsToken(k: Token, identity: bool) {
    match k
    case Char(c) => Scalar(c) && (identity ==> !IsRaw(c))
    case Stray(b) => b >= 0x80
  }

  function Source(k: Token): seq<byte>
    requires IsToken(k, false)
  {
    match k
    case Char(c) => Encode(c)
    case Stray(b) => [b]
  }

  /** The code point that represents a token in the converted string. */
  function Code(k: Token): (c: int)
    requires IsToken(k, false)
    ensures Scalar(c)
  {
    match k
    case Char(c) => c
    case Stray(b) => RAW_UTF8_OFS + b
  }

  /** Where invalid input goes: a stray byte to the end of the raw range, a surrogate half to its
      start, and what is no character at all to the replacement character. */
  lemma RawRange(b: byte, c: nat)
    ensures b >= 0x80 ==> Code(Stray(b)) == 0xE_E000 + b
    ensures 0xD800 <= c <= 0xDFFF ==> Representable(c) == 0xE_0000 + c
    ensures c > 0x10_FFFF ==> Representable(c) == 0xFFFD
    ensures Scalar(c) ==> Representable(c) == c
  {
  }

  function ReadToken(s: seq<byte>, i: nat, identity: bool): Token {
    var r := Read(s, i, identity);
    if r.vcount == 0 then Char(r.c) else Stray(At(s, i))
  }

  /** Reading takes what the token stands for, and no byte beyond the end. */
  lemma {:induction false} ReadSound(s: seq<byte>, i: nat, identity: bool)
    requires i < |s|
    ensures var r, k := Read(s, i, identity), ReadToken(s, i, identity);
      && 0 < r.count && i + r.count <= |s| && IsToken(k, identity) && IsToken(k, false)
      && s[i..i + r.count] == Source(k) && r.c == Code(k)
      && |Encode(Code(k))| == (if r.vcount == 0 then r.count else r.vcount)
  {
    hide Value2, Value3, Value4, Two, Three, Four, Encode;
    var b, b1, b2, b3 := At(s, i), At(s, i + 1), At(s, i + 2), At(s, i + 3);
    if b <= 0x7F {
      Encode1(b);
    } else if Two(b, b1) {
      TailInside(s, i, 1);
      Decode2(b, b1);
    } else if Three(b, b1, b2) {
      TailInside(s, i, 2);
      Decode3(b, b1, b2);
    } else if Four(b, b1, b2, b3) {
      TailInside(s, i, 3);
      Decode4(b, b1, b2, b3);
      EncodeRaw(b);
    } else {
      EncodeRaw(b);
    }
    Slices(s, i);
  }

  lemma Encode1(b: byte)
    requires b <= 0x7F
    ensures Encode(b) == [b]
  {
  }

  lemma EncodeRaw(b: byte)
    requires b >= 0x80
    ensures |Encode(RAW_UTF8_OFS + b)| == 4
  {
  }

  lemma Slices(s: seq<byte>, i: nat)
    ensures i + 1 <= |s| ==> s[i..i + 1] == [At(s, i)]
    ensures i + 2 <= |s| ==> s[i..i + 2] == [At(s, i), At(s, i + 1)]
    ensures i + 3 <= |s| ==> s[i..i + 3] == [At(s, i), At(s, i + 1), At(s, i + 2)]
    ensures i + 4 <= |s| ==> s[i..i + 4] == [At(s, i), At(s, i + 1), At(s, i + 2), At(s, i + 3)]
  {
  }

  /** Continuation bytes are not beyond the end. */
  lemma TailInside(s: seq<byte>, i: nat, n: nat)
    ensures n == 1 && Two(At(s, i), At(s, i + 1)) ==> i + 1 < |s|
    ensures n == 2 && Three(At(s, i), At(s, i + 1), At(s, i + 2)) ==> i + 2 < |s|
    ensures n == 3 && Four(At(s, i), At(s, i + 1), At(s, i + 2), At(s, i + 3)) ==> i + 3 < |s|
  {
  }

  /** A character that is there is read. */
  lemma {:induction false} ReadComplete(s: seq<byte>, i: nat, c: int, identity: bool)
    requires Scalar(c) && (identity ==> !IsRaw(c)) && i + |Encode(c)| <= |s| && s[i..i + |Encode(c)|] == Encode(c)
    ensures Read(s, i, identity) == Reading(c, |Encode(c)|, 0)
  {
    hide Value2, Value3, Value4, Encode;
    Slices(s, i);
    if c <= 0x7F {
      Encode1(c);
    } else if c <= 0x7FF {
      Encode2(c);
    } else if c <= 0xFFFF {
      Encode3(c);
    } else {
      Encode4(c);
    }
  }

  // ------- whole strings -------

  ghost predicate AllTokens(ks: seq<Token>, identity: bool) {
    forall k | k in ks :: IsToken(k, identity) && IsToken(k, false)
  }

  /** The tokens of `s` from position `i` on. */
  ghost function Tokens(s: seq<byte>, i: nat, identity: bool): (ks: seq<Token>)
    requires i <= |s|
    ensures AllTokens(ks, identity)
    decreases |s| - i
  {
    if i == |s| then []
    else
      ReadSound(s, i, identity);
      [ReadToken(s, i, identity)] + Tokens(s, i + Read(s, i, identity).count, identity)
  }

  ghost function Sources(ks: seq<Token>): seq<byte>
    requires AllTokens(ks, false)
  {
    if ks == [] then [] else Source(ks[0]) + Sources(ks[1..])
  }

  ghost function Codes(ks: seq<Token>): (cs: seq<int>)
    requires AllTokens(ks, false)
    ensures |cs| == |ks| && forall c | c in cs :: Scalar(c)
  {
    if ks == [] then [] else [Code(ks[0])] + Codes(ks[1..])
  }

  /** The conversion of `s` from position `i` on. */
  ghost function Converted(s: seq<byte>, i: nat, identity: bool): seq<byte>
    requires i <= |s|
  {
    EncodeAll(Codes(Tokens(s, i, identity)))
  }

  /** Converting is always to well-formed UTF-8. */
  lemma ConvertedIsWellFormed(s: seq<byte>, identity: bool)
    ensures WellFormed(Converted(s, 0, identity))
  {
  }

  lemma {:induction false} TokensCover(s: seq<byte>, i: nat, identity: bool)
    requires i <= |s|
    ensures Sources(Tokens(s, i, identity)) == s[i..]
    decreases |s| - i
  {
    hide Read, Encode, ReadToken;
    if i < |s| {
      var n := Read(s, i, identity).count;
      ReadSound(s, i, identity);
      TokensCover(s, i + n, identity);
      assert s[i..] == s[i..i + n] + s[i + n..];
    }
  }

  lemma {:induction false} ConvertedStep(s: seq<byte>, i: nat, identity: bool)
    requires i < |s|
    ensures var r, k := Read(s, i, identity), ReadToken(s, i, identity);
      && i + r.count <= |s| && IsToken(k, false) && r.c == Code(k)
      && Converted(s, i, identity) == Encode(r.c) + Converted(s, i + r.count, identity)
      && |Encode(r.c)| == (if r.vcount == 0 then r.count else r.vcount)
  {
    hide Read, Encode, ReadToken;
    ReadSound(s, i, identity);
    var ks := Tokens(s, i, identity);
    var k := ReadToken(s, i, identity);
    assert ks == [k] + Tokens(s, i + Read(s, i, identity).count, identity);
    assert Codes(ks) == [Code(k)] + Codes(ks[1..]);
  }

  /** First pass: the length of the converted string, and whether it is the original. */
  method Validate(s: seq<byte>, identity: bool) returns (valid: bool, vlen: nat)
    ensures vlen == |Converted(s, 0, identity)| && (valid <==> Converted(s, 0, identity) == s)
  {
    hide Converted, Read, Encode;
    var p := 0;
    vlen := 0;
    while p < |s|
      invariant p <= |s| && vlen + |Converted(s, p, identity)| == |Converted(s, 0, identity)|
      decreases |s| - p
    {
      ConvertedStep(s, p, identity);
      ReadSound(s, p, identity);
      if s[p] < 0x80 {
        ReadAscii(s, p, identity);
        p := p + 1;
        vlen := vlen + 1;
      } else {
        var r := Read(s, p, identity);
        p := p + r.count;
        if r.vcount == 0 {
          vlen := vlen + r.count;
        } else {
          vlen := vlen + r.vcount;
        }
      }
    }
    ConvertedEnd(s, identity);
    valid := vlen == |s|;
    SameLength(s, identity);
  }

  lemma ReadAscii(s: seq<byte>, i: nat, identity: bool)
    requires i < |s| && s[i] < 0x80
    ensures Read(s, i, identity) == Reading(s[i], 1, 0) && Encode(s[i]) == [s[i]]
  {
  }

  lemma ConvertedEnd(s: seq<byte>, identity: bool)
    ensures Converted(s, |s|, identity) == []
  {
  }

  ghost function Strays(ks: seq<Token>): nat {
    if ks == [] then 0 else (if ks[0].Stray? then 1 else 0) + Strays(ks[1..])
  }

  /** Each stray byte takes three bytes more. */
  lemma {:induction false} LengthOf(ks: seq<Token>)
    requires AllTokens(ks, false)
    ensures |EncodeAll(Codes(ks))| == |Sources(ks)| + 3 * Strays(ks)
    ensures Strays(ks) == 0 ==> EncodeAll(Codes(ks)) == Sources(ks)
  {
    if ks != [] {
      LengthOf(ks[1..]);
      assert IsToken(ks[0], false);
      if ks[0].Stray? {
        EncodeRaw(ks[0].b);
      }
    }
  }

  lemma {:induction false} SameLength(s: seq<byte>, identity: bool)
    ensures |Converted(s, 0, identity)| == |s| <==> Converted(s, 0, identity) == s
  {
    TokensCover(s, 0, identity);
    LengthOf(Tokens(s, 0, identity));
  }

  /** Second pass: write the converted string, which fits its buffer exactly. */
  method ConvertFromInvalid(s: seq<byte>, vlen: nat, identity: bool) returns (t: array<byte>)
    requires vlen == |Converted(s, 0, identity)|
    ensures fresh(t) && t[..] == Converted(s, 0, identity)
  {
    hide Converted, Read, Encode, Representable;
    t := new byte[vlen];
    var p, j := 0, 0;
    while p < |s|
      invariant p <= |s| && j <= t.Length == vlen && fresh(t) && t[..j] + Converted(s, p, identity) == Converted(s, 0, identity)
      decreases |s| - p
    {
      ghost var before := t[..j];
      ConvertedStep(s, p, identity);
      ReadSound(s, p, identity);
      ghost var c := Read(s, p, identity).c;
      ghost var rest := Converted(s, p + Read(s, p, identity).count, identity);
      assert |before| + |Encode(c)| + |rest| == vlen;
      if s[p] < 0x80 {
        ReadAscii(s, p, identity);
        t[j] := s[p];
        p, j := p + 1, j + 1;
      } else {
        var r := Read(s, p, identity);
        Itself(r.c);
        p := p + r.count;
        var tcount := Write(r.c, t, j);
        j := j + tcount;
      }
      assert t[..j] == before + Encode(c);
      assert before + Encode(c) + rest == before + (Encode(c) + rest);
    }
    ConvertedEnd(s, identity);
    assert t[..j] == Converted(s, 0, identity);
  }

  lemma Itself(c: int)
    requires Scalar(c)
    ensures Representable(c) == c && Len(c) == |Encode(c)|
  {
  }

  /** Convert tolerantly: the string itself if that is valid. */
  method Convert(s: seq<byte>, identity: bool) returns (t: seq<byte>)
    ensures t == Converted(s, 0, identity)
  {
    hide Converted;
    var valid, vlen := Validate(s, identity);
    if valid {
      t := s;
    } else {
      var buf := ConvertFromInvalid(s, vlen, identity);
      t := buf[..];
    }
  }

  // ------- what the conversion promises -------

  ghost predicate NoneRaw(cs: seq<int>) {
    forall c | c in cs :: !IsRaw(c)
  }

  ghost predicate AllScalar(cs: seq<int>) {
    forall c | c in cs :: Scalar(c)
  }

  /** Reading encoded characters gives these characters back. */
  lemma {:induction false} TokensOfEncoded(s: seq<byte>, i: nat, cs: seq<int>, identity: bool)
    requires AllScalar(cs) && (identity ==> NoneRaw(cs)) && i <= |s| && s[i..] == EncodeAll(cs)
    ensures Codes(Tokens(s, i, identity)) == cs && Strays(Tokens(s, i, identity)) == 0
    decreases |cs|
  {
    hide Read, Encode;
    if cs != [] {
      var c, rest := cs[0], cs[1..];
      var n := |Encode(c)|;
      assert s[i..][..n] == Encode(c) && s[i..][n..] == EncodeAll(rest);
      ReadComplete(s, i, c, identity);
      TokensOfEncoded(s, i + n, rest, identity);
      assert Tokens(s, i, identity) == [Char(c)] + Tokens(s, i + n, identity);
    }
  }

  /** So a string is the encoding of one sequence of characters only. */
  lemma {:induction false} EncodeInjective(cs: seq<int>, ds: seq<int>)
    requires AllScalar(cs) && AllScalar(ds) && EncodeAll(cs) == EncodeAll(ds)
    ensures cs == ds
  {
    var s := EncodeAll(cs);
    assert s[0..] == s;
    TokensOfEncoded(s, 0, cs, false);
    TokensOfEncoded(s, 0, ds, false);
  }

  /** Well-formed input, without raw characters if these are to be kept apart from stray bytes. */
  ghost predicate IsValid(s: seq<byte>, identity: bool) {
    exists cs: seq<int> :: AllScalar(cs) && (identity ==> NoneRaw(cs)) && s == EncodeAll(cs)
  }

  /** Conversion changes nothing exactly on valid input. */
  lemma {:induction false} UnchangedIfValid(s: seq<byte>, identity: bool)
    ensures Converted(s, 0, identity) == s <==> IsValid(s, identity)
  {
    hide Read, Encode, Tokens, EncodeAll;
    var ks := Tokens(s, 0, identity);
    TokensCover(s, 0, identity);
    LengthOf(ks);
    if Converted(s, 0, identity) == s {
      NoStrays(ks, identity);
    }
    if IsValid(s, identity) {
      var cs: seq<int> :| AllScalar(cs) && (identity ==> NoneRaw(cs)) && s == EncodeAll(cs);
      assert s[0..] == s;
      TokensOfEncoded(s, 0, cs, identity);
    }
  }

  lemma {:induction false} NoStrays(ks: seq<Token>, identity: bool)
    requires AllTokens(ks, identity) && AllTokens(ks, false)
    ensures AllScalar(Codes(ks)) && (identity && Strays(ks) == 0 ==> NoneRaw(Codes(ks)))
  {
    if ks != [] {
      NoStrays(ks[1..], identity);
      assert IsToken(ks[0], identity);
      assert Codes(ks) == [Code(ks[0])] + Codes(ks[1..]);
    }
  }

  lemma CodeInjective(k: Token, l: Token)
    requires IsToken(k, true) && IsToken(k, false) && IsToken(l, true) && IsToken(l, false) && Code(k) == Code(l)
    ensures k == l
  {
  }

  lemma {:induction false} CodesInjective(ks: seq<Token>, ls: seq<Token>)
    requires AllTokens(ks, true) && AllTokens(ls, true) && Codes(ks) == Codes(ls)
    ensures ks == ls
  {
    assert |ks| == |Codes(ks)| == |Codes(ls)| == |ls|;
    if ks != [] {
      assert ks[0] in ks && ls[0] in ls;
      assert Codes(ks) == [Code(ks[0])] + Codes(ks[1..]) && Codes(ls) == [Code(ls[0])] + Codes(ls[1..]);
      assert Codes(ks)[0] == Code(ks[0]) && Codes(ls)[0] == Code(ls[0]);
      CodeInjective(ks[0], ls[0]);
      assert Codes(ks)[1..] == Codes(ks[1..]) && Codes(ls)[1..] == Codes(ls[1..]);
      CodesInjective(ks[1..], ls[1..]);
      assert ks == [ks[0]] + ks[1..] && ls == [ls[0]] + ls[1..];
    }
  }

  /** When raw characters are kept apart, different input stays different. */
  lemma {:induction false} Injective(s: seq<byte>, t: seq<byte>)
    requires Converted(s, 0, true) == Converted(t, 0, true)
    ensures s == t
  {
    var ks, ls := Tokens(s, 0, true), Tokens(t, 0, true);
    EncodeInjective(Codes(ks), Codes(ls));
    CodesInjective(ks, ls);
    TokensCover(s, 0, true);
    TokensCover(t, 0, true);
  }

  /** Otherwise a stray byte is converted like the raw character that represents it. */
  lemma {:induction false} NotInjective(b: byte)
    requires b >= 0x80
    ensures var s, t := [b], Encode(RAW_UTF8_OFS + b); s != t && Converted(s, 0, false) == Converted(t, 0, false)
  {
    var s, t := [b], Encode(RAW_UTF8_OFS + b);
    EncodeRaw(b);
    assert t[0..] == t && EncodeAll([RAW_UTF8_OFS + b]) == t;
    TokensOfEncoded(t, 0, [RAW_UTF8_OFS + b], false);
    ConvertedStep(s, 0, false);
    ConvertedEnd(s, false);
    assert Read(s, 0, false) == Reading(RAW_UTF8_OFS + b, 1, 4);
  }
}
