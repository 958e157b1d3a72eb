/** Selecting a random number below a bound without bias, by rejecting some of the 32-bit inputs. */
module RangeSelect {

  const W: int := 0x1_0000_0000

  type uint32 = x: int | 0 <= x < W

  /** The number that the input `x` selects. */
  function Selected(max: uint32, x: uint32): int {
    (x * max) / W
  }

  /** The input is kept: the low word of the product is not below 2^32 modulo `max`. */
  predicate Accepted(max: uint32, x: uint32)
    requires max > 0
  {
    (x * max) % W >= W % max
  }

  /** Selection consumes the inputs `xs` one by one; some input must be kept eventually. */
  method RangeUint32(max: uint32, xs: seq<uint32>) returns (r: uint32, used: nat)
    requires xs != [] && (max > 0 ==> exists k | 0 <= k < |xs| :: Accepted(max, xs[k]))
    ensures 1 <= used <= |xs| && r == Selected(max, xs[used - 1])
    ensures max == 0 ==> r == 0 && used == 1
    ensures max > 0 ==> r < max && Accepted(max, xs[used - 1]) && forall k | 0 <= k < used - 1 :: !Accepted(max, xs[k])
  {
    var x := xs[0];
    used := 1;
    var m := x * max;
    var l := m % W;
    if l < max {
      var threshold := ((W - 1 - max) + 1) % W % max;
      Threshold(max);
      while l < threshold
        invariant 1 <= used <= |xs| && x == xs[used - 1] && m == x * max && l == m % W
        invariant forall k | 0 <= k < used - 1 :: !Accepted(max, xs[k])
        decreases |xs| - used
      {
        x := xs[used];
        used := used + 1;
        m := x * max;
        l := m % W;
      }
    }
    Bounds(max, x);
    r := m / W;
  }

  /** The subtraction that wraps around computes 2^32 modulo `max`. */
  lemma Threshold(max: uint32)
    requires max > 0
    ensures ((W - 1 - max) + 1) % W % max == W % max
  {
    var q := (W - max) / max;
    assert W - max == q * max + (W - max) % max;
    assert W == (q + 1) * max + (W - max) % max;
    DivUnique(W, max, q + 1, (W - max) % max);
  }

  lemma DivUnique(n: int, d: int, q: int, r: int)
    requires d > 0 && n == q * d + r && 0 <= r < d
    ensures n / d == q && n % d == r
  {
    var q', r' := n / d, n % d;
    assert n == q' * d + r';
    assert (q - q') * d == r' - r;
    if q > q' {
      MulAtLeast(q - q', d);
    } else if q < q' {
      assert (q' - q) * d == r - r';
      MulAtLeast(q' - q, d);
    }
  }

  lemma MulAtLeast(k: int, d: int)
    requires k >= 1 && d >= 0
    ensures k * d >= d
  {
    assert k * d == (k - 1) * d + d;
    assert (k - 1) * d >= 0;
  }

  lemma Bounds(max: uint32, x: uint32)
    ensures 0 <= Selected(max, x) && Selected(max, x) * W + (x * max) % W == x * max
    ensures max > 0 ==> Selected(max, x) < max
    ensures max == 0 ==> Selected(max, x) == 0
  {
    var m := x * max;
    assert m == x * max >= 0;
    assert max * W - m == (W - x) * max;
    if max > 0 {
      MulAtLeast(W - x, max);
      Below(m, max);
    }
  }

  lemma Below(m: int, max: int)
    requires 0 <= m < max * W
    ensures 0 <= m / W < max
  {
  }

  /** The inputs that are kept and select `v`. */
  ghost function Inputs(max: uint32, v: uint32): set<int>
    requires max > 0
  {
    set x: int | 0 <= x < W && Accepted(max, x) && Selected(max, x) == v
  }

  /** The first multiple of `max` not below the kept part of the interval for `v`. */
  function First(max: uint32, v: uint32): int
    requires max > 0
  {
    (v * W + W % max + max - 1) / max
  }

  /** These inputs are a run of consecutive numbers. */
  lemma {:induction false} InputsAreConsecutive(max: uint32, v: uint32, x: int)
    requires v < max
    ensures 0 <= x < W && Accepted(max, x) && Selected(max, x) == v <==> First(max, v) <= x < First(max, v) + W / max
  {
    var t, k, lo := W % max, W / max, First(max, v);
    var n := v * W + t + max - 1;
    assert W == k * max + t;
    assert n == lo * max + n % max;
    // the kept products for v lie in [v * W + t, (v + 1) * W), which is k * max wide
    InInterval(max, v, x);
    Cut(x, max, lo, v * W + t);
    Cut(x, max, lo + k, v * W + t + k * max) by {
      assert (lo + k) * max == lo * max + k * max;
    }
  }

  /** `x` is at least the rounded-up quotient of `b` exactly if its multiple is at least `b`. */
  lemma Cut(x: int, d: int, q: int, b: int)
    requires d > 0 && b <= q * d < b + d
    ensures x >= q <==> x * d >= b
  {
    if x >= q {
      assert x * d == q * d + (x - q) * d;
      assert (x - q) * d >= 0;
    } else {
      MulAtLeast(q - x, d);
      assert q * d - x * d == (q - x) * d;
    }
  }

  lemma InInterval(max: uint32, v: uint32, x: int)
    requires v < max
    ensures 0 <= x < W && Accepted(max, x) && Selected(max, x) == v <==> v * W + W % max <= x * max < (v + 1) * W
  {
    var m := x * max;
    if 0 <= x < W {
      Bounds(max, x);
      if v * W + W % max <= m < (v + 1) * W {
        DivUnique(m, W, v, m - v * W);
      }
    } else if x < 0 {
      MulAtLeast(-x, max);
      assert m == -(-x * max);
      assert v * W >= 0;
    } else {
      assert m == W * max + (x - W) * max && (x - W) * max >= 0;
      assert (v + 1) * W + (max - v - 1) * W == max * W && (max - v - 1) * W >= 0;
    }
  }

  /** Selection is unbiased: every number below `max` is selected by equally many inputs. */
  lemma {:induction false} Unbiased(max: uint32, v: uint32)
    requires v < max
    ensures |Inputs(max, v)| == 0x1_0000_0000 / max
  {
    var lo := First(max, v);
    forall x ensures x in Inputs(max, v) <==> x in Range(lo, W / max) {
      InputsAreConsecutive(max, v, x);
    }
    assert Inputs(max, v) == Range(lo, W / max);
    RangeSize(lo, W / max);
  }

  ghost function Range(lo: int, k: nat): (s: set<int>)
    ensures forall x :: x in s <==> lo <= x < lo + k
  {
    if k == 0 then {} else Range(lo, k - 1) + {lo + k - 1}
  }

  lemma {:induction false} RangeSize(lo: int, k: nat)
    ensures |Range(lo, k)| == k
  {
    if k > 0 {
      RangeSize(lo, k - 1);
    }
  }
}
