/** Small integers in tagged machine words: arithmetic directly on the tagged form, with one test for
    overflow and for operands that are pointers. */
module Tagged {
  import Digits
  import opened Options

  /** How overflow is detected: by the machine, by the machine after testing both tags, or by
      comparing with the sign extension of the lower half of the word. */
  datatype Scheme = Overflow | TagOverflow | SignExtend

  /** A build: words are in [-half, half), their lower halves in [-low, low). */
  datatype Machine = Machine(scheme: Scheme, half: nat, low: nat, smallMax: nat)

  predicate Valid(m: Machine) {
    && m.half % 4 == 0 && m.low % 4 == 0 && 128 <= m.low < m.half
    && if m.scheme.SignExtend? then m.smallMax == m.low - 1 && m.half == 2 * m.low * m.low
       else m.smallMax == m.half / 4 - 1
  }

  lemma BuildsAreValid()
    ensures Valid(Machine(Overflow, 0x8000_0000_0000_0000, 0x8000_0000, 0x1FFF_FFFF_FFFF_FFFF))
    ensures Valid(Machine(TagOverflow, 0x8000_0000_0000_0000, 0x8000_0000, 0x1FFF_FFFF_FFFF_FFFF))
    ensures Valid(Machine(SignExtend, 0x8000_0000_0000_0000, 0x8000_0000, 0x7FFF_FFFF))
    ensures Valid(Machine(SignExtend, 0x8000_0000, 0x8000, 0x7FFF))
  {
  }

  type ValidMachine = m: Machine | Valid(m)
    witness (BuildsAreValid(); Machine(SignExtend, 0x8000_0000, 0x8000, 0x7FFF))

  /** The machine of the build; nothing but its validity is known. */
  const MACHINE: ValidMachine

  const HALF: nat := MACHINE.half
  const LOW: nat := MACHINE.low
  const SMALL_MAX: nat := MACHINE.smallMax

  lemma MachineFacts()
    ensures HALF % 4 == 0 && LOW % 4 == 0 && 128 <= LOW < HALF
    ensures MACHINE.scheme.SignExtend? ==> SMALL_MAX == LOW - 1 && HALF >= 16 * LOW
    ensures !MACHINE.scheme.SignExtend? ==> SMALL_MAX == HALF / 4 - 1
    ensures 0 < SMALL_MAX
  {
    if MACHINE.scheme.SignExtend? {
      Doubled(LOW, HALF);
    }
  }

  lemma Doubled(l: nat, h: nat)
    requires l >= 8 && h == 2 * l * l
    ensures h >= 16 * l
  {
    NonNegative(l - 8, l);
    assert (l - 8) * l == l * l - 8 * l;
  }

  lemma NonNegative(a: int, b: int)
    requires a >= 0 && b >= 0
    ensures a * b >= 0
  {
  }

  predicate InWord(z: int) {
    -(HALF as int) <= z < HALF
  }

  predicate InSmall(n: int) {
    -(SMALL_MAX as int) - 1 <= n <= SMALL_MAX
  }

  // ------- tags -------

  function Boxed(n: int): int {
    4 * n + 1
  }

  /** An arithmetic shift right by two. */
  function Unboxed(w: int): int {
    w / 4
  }

  predicate IsSmall(w: int) {
    w % 4 == 1
  }

  /** An integer: a boxed small number, or an aligned pointer. */
  predicate IsInteger(w: int) {
    InWord(w) && (w % 4 == 0 || (IsSmall(w) && InSmall(Unboxed(w))))
  }

  // ------- words -------

  /** `z` modulo the word size, as a signed number. */
  function Wrapped(z: int): int {
    (z + HALF) % (2 * HALF) - HALF
  }

  /** The sign extension of the lower half. */
  function SignExtended(z: int): int {
    (z + LOW) % (2 * LOW) - LOW
  }

  /** Bit 1 of a word. */
  predicate Bit1(z: int) {
    z % 4 >= 2
  }

  function Xor3(z: int): int {
    z - z % 4 + (3 - z % 4)
  }

  function Or2(z: int): int {
    if Bit1(z) then z else z + 2
  }

  function Or1(z: int): int {
    if z % 2 == 1 then z else z + 1
  }

  function AndNot2(z: int): int {
    if Bit1(z) then z - 2 else z
  }

  // ------- the fast paths: a result, or none if the generic operation is needed -------

  function AddFast(x: int, y: int): Option<int> {
    match MACHINE.scheme
    case Overflow => if !InWord(x + y) || !Bit1(x + y) then None else Some(Xor3(x + y))
    case TagOverflow => if !(IsSmall(x) && IsSmall(y)) || !InWord(x + y) then None else Some(Xor3(x + y))
    case SignExtend => var z := Wrapped(x + y); if Or2(z) == SignExtended(z) then Some(Xor3(z)) else None
  }

  function SubFast(x: int, y: int): Option<int> {
    var z := Xor3(x) - y;
    match MACHINE.scheme
    case Overflow => if !InWord(z) || Bit1(z) then None else Some(z)
    case TagOverflow => if !(IsSmall(x) && IsSmall(y)) || !InWord(z) then None else Some(z)
    case SignExtend => var z := Wrapped(z); if AndNot2(z) == SignExtended(z) then Some(z) else None
  }

  /** Adding the small constant `i`. */
  function AddConstFast(x: int, i: int): Option<int> {
    var z := x + 4 * i;
    if MACHINE.scheme.SignExtend? then
      var z := Wrapped(z); if Or1(z) == SignExtended(z) then Some(z) else None
    else if !IsSmall(x) || !InWord(z) then None else Some(z)
  }

  /** For two small numbers. */
  function MulFast(x: int, y: int): Option<int> {
    var z := (x / 2) * (y / 2);
    if MACHINE.scheme.SignExtend? then
      var z := Wrapped(z); if z == SignExtended(z) then Some(z + 1) else None
    else if !InWord(z) then None else Some(z + 1)
  }

  // ------- what they compute -------

  lemma BoxUnbox(n: int)
    ensures IsSmall(Boxed(n)) && Unboxed(Boxed(n)) == n
  {
  }

  lemma WrappedMod(z: int) returns (k: int)
    ensures Wrapped(z) == z - k * (2 * HALF) && InWord(Wrapped(z)) && Wrapped(z) % 4 == z % 4
    ensures InWord(z) ==> Wrapped(z) == z
  {
    k := (z + HALF) / (2 * HALF);
    Remainder(z + HALF, 2 * HALF);
    assert Wrapped(z) == z - k * (2 * HALF);
    var h := HALF / 4;
    assert z - k * (2 * HALF) == z - 4 * (2 * k * h) by {
      assert k * (2 * HALF) == k * (8 * h);
    }
    SameMod4(z, 2 * k * h);
    if InWord(z) {
      SmallRemainder(z + HALF, 2 * HALF);
    }
  }

  lemma Remainder(a: int, b: int)
    requires b > 0
    ensures a % b == a - a / b * b && 0 <= a % b < b
  {
  }

  lemma SmallRemainder(a: int, b: int)
    requires 0 <= a < b
    ensures a % b == a
  {
  }

  lemma SameMod4(z: int, k: int)
    ensures (z - 4 * k) % 4 == z % 4
  {
  }

  /** The lower half says it all exactly for numbers in its range. */
  lemma SignExtendedIff(z: int)
    ensures SignExtended(z) % 4 == z % 4
    ensures SignExtended(z) == z <==> -(LOW as int) <= z < LOW
  {
    var k := (z + LOW) / (2 * LOW);
    Remainder(z + LOW, 2 * LOW);
    var l := LOW / 4;
    assert k * (2 * LOW) == 4 * (2 * k * l) by {
      assert k * (2 * LOW) == k * (8 * l);
    }
    SameMod4(z, 2 * k * l);
    if -(LOW as int) <= z < LOW {
      SmallRemainder(z + LOW, 2 * LOW);
    }
  }

  /** The results that the fast paths of addition and subtraction can give. */
  predicate InFast(n: int) {
    if MACHINE.scheme.SignExtend? then -(LOW as int) <= 4 * n < LOW else InSmall(n)
  }

  lemma FastIsSmall(n: int)
    requires InFast(n)
    ensures InSmall(n) && InWord(Boxed(n))
  {
  }

  /** The tag bits of a sum or difference tell whether both operands were small. */
  lemma SumTag(x: int, y: int)
    requires IsInteger(x) && IsInteger(y)
    ensures Bit1(x + y) <==> IsSmall(x) && IsSmall(y)
    ensures Bit1(Xor3(x) - y) <==> !(IsSmall(x) && IsSmall(y))
  {
    hide InWord, InSmall;
    var a, r, b, q := x / 4, x % 4, y / 4, y % 4;
    assert x == 4 * a + r && y == 4 * b + q;
    Mod4(x + y, a + b, r + q);
    Mod4(Xor3(x) - y, a - b, 3 - r - q);
  }

  lemma Mod4(z: int, k: int, r: int)
    requires z == 4 * k + r && 0 <= r < 4
    ensures z % 4 == r && z / 4 == k
  {
  }

  /** `z` is in range of a word, or of the lower half of a word. */
  lemma TaggedRange(z: int, n: int, t: int)
    requires z == 4 * n + t && 0 <= t < 4
    ensures !MACHINE.scheme.SignExtend? ==> (InWord(z) <==> InFast(n))
    ensures MACHINE.scheme.SignExtend? ==> (-(LOW as int) <= z < LOW <==> InFast(n))
  {
    hide Valid;
    MachineFacts();
    var h, l := HALF / 4, LOW / 4;
    assert HALF == 4 * h && LOW == 4 * l;
  }

  /** Sums and differences of small numbers do not wrap around. */
  lemma NoWrapAround(x: int, y: int)
    requires MACHINE.scheme.SignExtend? && IsInteger(x) && IsInteger(y) && IsSmall(x) && IsSmall(y)
    ensures Wrapped(x + y) == x + y && Wrapped(Xor3(x) - y) == Xor3(x) - y
  {
    hide Valid, Wrapped;
    MachineFacts();
    var k := WrappedMod(x + y);
    var j := WrappedMod(Xor3(x) - y);
  }

  /** The test with the sign extension: bit 1 is set, and the lower half says it all. */
  lemma SignTest(z: int)
    ensures Or2(z) == SignExtended(z) <==> Bit1(z) && -(LOW as int) <= z < LOW
    ensures AndNot2(z) == SignExtended(z) <==> !Bit1(z) && -(LOW as int) <= z < LOW
  {
    hide Valid, SignExtended;
    SignExtendedIff(z);
    var e := SignExtended(z);
    assert Bit1(e) <==> Bit1(z);
  }

  /** Masking the sign extension instead of the word, as is done on some machines, is the same test. */
  lemma EitherBias(z: int)
    ensures z == Or2(SignExtended(z)) <==> Or2(z) == SignExtended(z)
    ensures z == AndNot2(SignExtended(z)) <==> AndNot2(z) == SignExtended(z)
    ensures z == Or1(SignExtended(z)) <==> Or1(z) == SignExtended(z)
  {
    hide Valid, SignExtended;
    SignExtendedIff(z);
    var e := SignExtended(z);
    assert Bit1(e) <==> Bit1(z);
    Mod4(z, z / 4, z % 4);
    assert (e + 2) % 4 != e % 4 && (e - 2) % 4 != e % 4 && (e + 1) % 4 != e % 4 && (z + 1) % 4 != z % 4;
  }

  /** The fast path of addition is taken exactly for two small numbers with a sum in range, and
      then gives that sum. */
  lemma AddFastExact(x: int, y: int)
    requires IsInteger(x) && IsInteger(y)
    ensures AddFast(x, y).Some? <==> IsSmall(x) && IsSmall(y) && InFast(Unboxed(x) + Unboxed(y))
    ensures AddFast(x, y).Some? ==> AddFast(x, y).value == Boxed(Unboxed(x) + Unboxed(y))
  {
    hide Valid, Wrapped, SignExtended, Or2, InWord, InFast, IsInteger, Bit1;
    SumTag(x, y);
    SignTest(Wrapped(x + y));
    if IsSmall(x) && IsSmall(y) {
      var n := Unboxed(x) + Unboxed(y);
      assert x + y == 4 * n + 2;
      TaggedRange(x + y, n, 2);
      if MACHINE.scheme.SignExtend? {
        NoWrapAround(x, y);
      }
    } else {
      var k := WrappedMod(x + y);
      assert Bit1(Wrapped(x + y)) <==> Bit1(x + y) by {
        SameTag(Wrapped(x + y), x + y);
      }
    }
  }

  /** The same for adding a constant. */
  lemma AddConstFastExact(x: int, i: int)
    requires IsInteger(x) && InSmall(i)
    ensures AddConstFast(x, i).Some? <==> IsSmall(x) && InFast(Unboxed(x) + i)
    ensures AddConstFast(x, i).Some? ==> AddConstFast(x, i).value == Boxed(Unboxed(x) + i)
  {
    hide Valid, Wrapped, SignExtended, InFast, InWord;
    var z, n := x + 4 * i, Unboxed(x) + i;
    var k := WrappedMod(z);
    SignExtendedIff(Wrapped(z));
    if IsSmall(x) {
      assert z == 4 * n + 1;
      TaggedRange(z, n, 1);
      Mod4(z, n, 1);
      Odd(z);
      if MACHINE.scheme.SignExtend? {
        ConstNoWrap(x, i);
      }
    } else {
      Mod4(z, n, 0);
      Odd(Wrapped(z));
    }
  }

  lemma Odd(z: int)
    ensures z % 4 == 1 ==> z % 2 == 1
    ensures z % 4 == 0 ==> z % 2 == 0 && (z + 1) % 4 != 0
  {
    var k, r := z / 4, z % 4;
    assert z == 4 * k + r;
    if r == 0 {
      Mod2(z, 2 * k, 0);
      Mod4(z + 1, k, 1);
    } else if r == 1 {
      Mod2(z, 2 * k, 1);
    }
  }

  lemma Mod2(z: int, k: int, r: int)
    requires z == 2 * k + r && 0 <= r < 2
    ensures z % 2 == r
  {
  }

  lemma ConstNoWrap(x: int, i: int)
    requires MACHINE.scheme.SignExtend? && IsInteger(x) && IsSmall(x) && InSmall(i)
    ensures Wrapped(x + 4 * i) == x + 4 * i
  {
    hide Valid, Wrapped;
    MachineFacts();
    var k := WrappedMod(x + 4 * i);
  }

  lemma SameTag(z: int, z': int)
    requires z % 4 == z' % 4
    ensures Bit1(z) <==> Bit1(z')
  {
  }

  /** The same for subtraction. */
  lemma SubFastExact(x: int, y: int)
    requires IsInteger(x) && IsInteger(y)
    ensures SubFast(x, y).Some? <==> IsSmall(x) && IsSmall(y) && InFast(Unboxed(x) - Unboxed(y))
    ensures SubFast(x, y).Some? ==> SubFast(x, y).value == Boxed(Unboxed(x) - Unboxed(y))
  {
    hide Valid, Wrapped, SignExtended, AndNot2, InWord, InFast, IsInteger, Bit1;
    SumTag(x, y);
    var z := Xor3(x) - y;
    SignTest(Wrapped(z));
    if IsSmall(x) && IsSmall(y) {
      var n := Unboxed(x) - Unboxed(y);
      assert z == 4 * n + 1;
      TaggedRange(z, n, 1);
      if MACHINE.scheme.SignExtend? {
        NoWrapAround(x, y);
      }
    } else {
      var k := WrappedMod(z);
      SameTag(Wrapped(z), z);
    }
  }

  /** With sign extension, the smallest number times itself. */
  predicate LostProduct(n: int, m: int) {
    MACHINE.scheme.SignExtend? && n == m == -(LOW as int)
  }

  /** The fast path of multiplication is taken exactly for the products in range, and then gives the
      product, and for the lost product, which wraps around to zero. */
  lemma MulFastExact(x: int, y: int)
    requires IsInteger(x) && IsInteger(y) && IsSmall(x) && IsSmall(y)
    ensures var n, m := Unboxed(x), Unboxed(y);
      && (MulFast(x, y).Some? <==> InFast(n * m) || LostProduct(n, m))
      && (MulFast(x, y).Some? ==> MulFast(x, y).value == Boxed(if LostProduct(n, m) then 0 else n * m))
      && (LostProduct(n, m) ==> n * m != 0)
  {
    hide Valid, Wrapped, SignExtended, InWord, InFast;
    var n, m := Unboxed(x), Unboxed(y);
    Halves(x, y);
    var p := n * m;
    TaggedRange(4 * p, p, 0);
    if MACHINE.scheme.SignExtend? {
      SignExtendedIff(Wrapped(4 * p));
      MachineFacts();
      var k := WrappedMod(4 * p);
      LowInWord(4 * p);
      if LostProduct(n, m) {
        Lost(n, m);
      } else if -(LOW as int) <= Wrapped(4 * p) < LOW {
        MulWraps(n, m);
      }
    }
  }

  /** The lost product occurs: both operands are small numbers. */
  lemma ProductIsLost()
    requires MACHINE.scheme.SignExtend?
    ensures var x := Boxed(-(LOW as int));
      IsInteger(x) && IsSmall(x) && LostProduct(Unboxed(x), Unboxed(x)) && MulFast(x, x) == Some(Boxed(0))
  {
    hide Valid, Wrapped, SignExtended, MulFast;
    MachineFacts();
    BoxUnbox(-(LOW as int));
    MulFastExact(Boxed(-(LOW as int)), Boxed(-(LOW as int)));
  }

  lemma LowInWord(z: int)
    requires MACHINE.scheme.SignExtend?
    ensures -(LOW as int) <= z < LOW ==> InWord(z)
  {
    MachineFacts();
  }

  lemma Lost(n: int, m: int)
    requires LostProduct(n, m)
    ensures Wrapped(4 * (n * m)) == 0 && n * m > 0
  {
    hide Valid, Wrapped;
    MachineFacts();
    SquaredHalf();
    var k := WrappedMod(4 * (n * m));
    Negated(LOW, LOW);
    Digits.MulAtLeast(LOW, 1, LOW, 1);
    assert 4 * (n * m) == 2 * HALF;
    assert (1 - k) * (2 * HALF) == 2 * HALF - k * (2 * HALF) == -((k - 1) * (2 * HALF));
    if k >= 2 {
      Digits.MulAtLeast(k - 1, 1, 2 * HALF, 2 * HALF);
    } else if k <= 0 {
      Digits.MulAtLeast(1 - k, 1, 2 * HALF, 2 * HALF);
    }
  }

  /** A product that fits the lower half after wrapping around is right, with one exception. */
  lemma MulWraps(n: int, m: int)
    requires MACHINE.scheme.SignExtend? && -(LOW as int) <= n < LOW && -(LOW as int) <= m < LOW
    requires -(LOW as int) <= Wrapped(4 * (n * m)) < LOW
    ensures Wrapped(4 * (n * m)) == 4 * (n * m) <==> !(n == m == -(LOW as int))
  {
    hide Valid, Wrapped;
    MachineFacts();
    var p := n * m;
    var k := WrappedMod(4 * p);
    ProductBounds(n, m, LOW);
    SquaredHalf();
    Turns(p, k, LOW, HALF);
    if n == m == -(LOW as int) {
      Smallest(p, k, LOW, HALF);
    }
  }

  /** In any case the result is a small number. */
  lemma MulFastIsSmall(x: int, y: int)
    requires IsInteger(x) && IsInteger(y) && IsSmall(x) && IsSmall(y) && MulFast(x, y).Some?
    ensures IsInteger(MulFast(x, y).value) && IsSmall(MulFast(x, y).value)
  {
    hide Valid, Wrapped, SignExtended, InFast, Unboxed, IsInteger, InWord;
    Halves(x, y);
    var p := 4 * (Unboxed(x) * Unboxed(y));
    var k := WrappedMod(p);
    SignExtendedIff(Wrapped(p));
    Mod4(p, Unboxed(x) * Unboxed(y), 0);
    SmallProduct(MulFast(x, y).value - 1);
  }

  lemma SmallProduct(z: int)
    requires z % 4 == 0 && if MACHINE.scheme.SignExtend? then -(LOW as int) <= z < LOW else InWord(z)
    ensures IsInteger(z + 1) && IsSmall(z + 1)
  {
    hide Valid, InFast;
    var n := z / 4;
    assert z == 4 * n;
    TaggedRange(z, n, 0);
    FastIsSmall(n);
    BoxUnbox(n);
  }

  lemma Halves(x: int, y: int)
    requires IsSmall(x) && IsSmall(y)
    ensures (x / 2) * (y / 2) == 4 * (Unboxed(x) * Unboxed(y))
  {
    var n, m := Unboxed(x), Unboxed(y);
    assert x / 2 == 2 * n && y / 2 == 2 * m;
    assert (2 * n) * (2 * m) == 4 * (n * m);
  }

  lemma Smallest(p: int, k: int, l: nat, h: nat)
    requires l >= 8 && h == 2 * l * l && p == l * l && -(l as int) <= 4 * p - k * (2 * h) < l
    ensures k == 1
  {
    Turns(p, k, l, h);
    if k == 0 {
      Doubled(l, h);
    }
  }

  lemma ProductBounds(n: int, m: int, l: nat)
    requires -(l as int) <= n < l && -(l as int) <= m < l
    ensures -(l * l) + l <= n * m <= l * l
    ensures n != -(l as int) || m != -(l as int) ==> n * m <= l * l - l
  {
    var q, r := l * l, n * m;
    assert (l - 1) * l == q - l;
    NonNegative(l - 1, l);
    if n >= 0 && m >= 0 {
      Products(l - 1, n, l, m);
      NonNegative(n, m);
    } else if n < 0 && m < 0 {
      Negated(n, m);
      Products(l, -n, l, -m);
      NonNegative(-n, -m);
      if n != -(l as int) {
        Products(l - 1, -n, l, -m);
      } else if m != -(l as int) {
        Products(l - 1, -m, l, -n);
      }
    } else if n >= 0 {
      Products(l - 1, n, l, -m);
      NonNegative(n, -m);
    } else {
      Products(l - 1, m, l, -n);
      NonNegative(m, -n);
    }
  }

  lemma Products(a: int, b: int, c: int, d: int)
    requires a >= b >= 0 && c >= d >= 0
    ensures b * d <= a * c && d * b == b * d && b * -d == -(b * d) && -b * d == -(b * d)
  {
    Digits.MulAtLeast(a, b, c, d);
  }

  lemma SquaredHalf()
    ensures MACHINE.scheme.SignExtend? ==> HALF == 2 * LOW * LOW
  {
  }

  lemma Negated(n: int, m: int)
    ensures -n * -m == n * m
  {
  }

  /** A product is found again unless it wraps around by one turn, at the largest product. */
  lemma Turns(p: int, k: int, l: nat, h: nat)
    requires l >= 8 && h == 2 * l * l && -(l * l) + l <= p <= l * l
    requires -(l as int) <= 4 * p - k * (2 * h) < l
    ensures k == 0 || (k == 1 && p > l * l - l)
  {
    hide Valid;
    var q := l * l;
    Doubled(l, h);
    assert h == 2 * q;
    assert k * (2 * h) == 4 * (k * q);
    assert (k - 2) * q == k * q - 2 * q && (-1 - k) * q == -q - k * q;
    if k >= 2 {
      NonNegative(k - 2, q);
    } else if k <= -1 {
      NonNegative(-1 - k, q);
    }
  }
}
