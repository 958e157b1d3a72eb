/** Taking references: duplicating one, copying a block, and overwriting a field. */
module HeapOps {
  import opened Heap
  import opened StacklessFree

  // ------- dup -------

  /** A count after one more reference; an unshared count that overflows becomes stuck. */
  function Incremented(rc: int): int {
    if rc >= 0 then (if rc == INT32_MAX then RC_STUCK else rc + 1)
    else if rc > RC_STICKY then rc - 1
    else rc
  }

  ghost function Dupped(s: State, a: Addr): State
    requires a in s.mem
  {
    s.(mem := s.mem[a := s.mem[a].(rc := Incremented(s.mem[a].rc))], held := s.held + multiset{a})
  }

  lemma CountsAfterDup(rc: int, n: nat)
    requires RC_STUCK <= rc <= INT32_MAX && Counts(rc, n)
    ensures RC_STUCK <= Incremented(rc) <= INT32_MAX && Counts(Incremented(rc), n + 1)
  {
  }

  lemma DupKeepsInv(s: State, a: Addr)
    requires s.Inv() && a in s.mem && a !in s.dying
    ensures Dupped(s, a).Inv() && RC_STUCK <= s.mem[a].rc <= INT32_MAX
  {
    hide Boxes, Counts, Incremented;
    var t := Dupped(s, a);
    var n := s.Refs(a);
    assert Shape(s.mem[a]) && Counts(s.mem[a].rc, n);
    CountsAfterDup(s.mem[a].rc, n);
    forall x ensures t.Refs(x) == if x == a then n + 1 else s.Refs(x) {}
  }

  method Dup(h: RcHeap, a: Addr)
    requires h.S().Inv() && a in h.mem && a !in h.dying
    modifies h
    ensures h.S() == Dupped(old(h.S()), a) && h.S().Inv()
    // what happens to the count
    ensures var rc := old(h.mem)[a].rc;
      && (0 <= rc < 0x7FFF_FFFF ==> h.mem[a].rc == rc + 1) && (rc == 0x7FFF_FFFF ==> h.mem[a].rc == -0x8000_0000)
      && (-0x7000_0000 < rc < 0 ==> h.mem[a].rc == rc - 1) && (rc <= -0x7000_0000 ==> h.mem[a].rc == rc)
  {
    hide State.Inv;
    DupKeepsInv(h.S(), a);
    var rc := h.mem[a].rc;
    if rc < 0 {
      if rc > RC_STICKY {
        rc := rc - 1;
      }
    } else {
      // unsigned increment, reinterpreted as signed
      rc := if rc + 1 > INT32_MAX then rc + 1 - 0x1_0000_0000 else rc + 1;
    }
    assert rc == Incremented(h.mem[a].rc);
    h.mem := h.mem[a := h.mem[a].(rc := rc)];
    h.held := h.held + multiset{a};
  }

  // ------- copying a block -------

  function Bumped(rc: int, n: nat): int {
    if n == 0 then rc else Incremented(Bumped(rc, n - 1))
  }

  /** A new block `c` under construction: a copy of `b` that owns nothing yet. */
  ghost function Started(s: State, b: Addr, c: Addr): State
    requires b in s.mem
  {
    s.(mem := s.mem[c := s.mem[b].(rc := 0)], own := s.own[c := []], dying := s.dying + {c})
  }

  lemma StartKeepsInv(s: State, b: Addr, c: Addr)
    requires s.Inv() && b in s.mem && c !in s.mem
    ensures Started(s, b, c).Inv()
  {
    hide Boxes, Counts;
    var t := Started(s, b, c);
    BoxesAdd(s.own, c, []);
    assert Shape(s.mem[b]);
    forall a ensures t.Refs(a) == s.Refs(a) {}
    forall a | a in t.mem ensures Shape(t.mem[a]) {
      assert a == c || Shape(s.mem[a]);
    }
  }

  /** The copy takes over a held reference as its next field. */
  ghost function Taken(s: State, c: Addr, v: Box): State
    requires c in s.own
  {
    s.(own := s.own[c := s.own[c] + [v]], held := if v.Ptr? then s.held - multiset{v.a} else s.held)
  }

  lemma TakeKeepsInv(s: State, c: Addr, v: Box)
    requires s.Inv() && c in s.dying && (v.Ptr? ==> v.a in s.held)
    ensures Taken(s, c, v).Inv()
  {
    hide Boxes, Counts;
    var t := Taken(s, c, v);
    BoxesUpdate(s.own, c, s.own[c] + [v]);
    assert multiset(s.own[c] + [v]) == multiset(s.own[c]) + multiset{v};
    BoxesGained(Boxes(s.own), Boxes(t.own), multiset(s.own[c]), v);
    forall a ensures t.Refs(a) == s.Refs(a) {}
  }

  lemma BoxesGained(p: multiset<Box>, q: multiset<Box>, m: multiset<Box>, v: Box)
    requires q + m == p + (m + multiset{v})
    ensures q == p + multiset{v}
  {
    forall x ensures q[x] == (p + multiset{v})[x] {
      assert (q + m)[x] == (p + (m + multiset{v}))[x];
    }
  }

  /** The finished copy becomes a normal block with one held reference. */
  ghost function Completed(s: State, c: Addr): State {
    s.(dying := s.dying - {c}, held := s.held + multiset{c})
  }

  lemma CompleteKeepsInv(s: State, c: Addr)
    requires s.Inv() && c in s.dying && s.own[c] == s.mem[c].fields
    ensures Completed(s, c).Inv()
  {
    hide Boxes;
    var t := Completed(s, c);
    forall a ensures t.Refs(a) == s.Refs(a) + (if a == c then 1 else 0) {}
  }

  method FreshAddr(h: RcHeap) returns (c: Addr)
    ensures c !in h.mem
  {
    c := 0;
    ghost var below: set<Addr> := {};
    while c in h.mem
      invariant forall k | k in below :: k < c
      invariant below <= h.mem.Keys
      decreases h.mem.Keys - below
    {
      below := below + {c};
      c := c + 1;
    }
  }

  /** Every block of `m` is in `m'`, up to its count. */
  predicate SameUpToCounts(m: Mem, m': Mem) {
    forall a | a in m :: a in m' && m'[a] == m[a].(rc := m'[a].rc)
  }

  predicate BumpedBy(m: Mem, m': Mem, fields: seq<Box>) {
    forall a | a in m :: a in m' && m'[a].rc == Bumped(m[a].rc, multiset(fields)[Ptr(a)])
  }

  /** `m` after a dup of the box `v`. */
  function WithDup(m: Mem, v: Box): Mem
    requires v.Ptr? ==> v.a in m
  {
    if v.Ptr? then m[v.a := m[v.a].(rc := Incremented(m[v.a].rc))] else m
  }

  /** Duplicate the next field of the copy `c`. */
  method DupField(h: RcHeap, c: Addr, v: Box)
    requires h.S().Inv() && c in h.dying && (v.Ptr? ==> v.a in h.mem && v.a !in h.dying)
    modifies h
    ensures h.S().Inv() && h.dying == old(h.dying) && h.held == old(h.held)
    ensures c in old(h.own) && c in h.own && h.own[c] == old(h.own)[c] + [v] && h.mem == WithDup(old(h.mem), v)
  {
    hide State.Inv, Incremented;
    OwnsKeys(h.S(), c);
    if v.Ptr? {
      Dup(h, v.a);
    }
    ghost var u := h.S();
    TakeKeepsInv(u, c, v);
    ghost var t := Taken(u, c, v);
    h.own, h.held := t.own, t.held;
    assert h.S() == t;
  }

  lemma OwnsKeys(s: State, c: Addr)
    requires s.Inv() && c in s.dying
    ensures c in s.own && c in s.mem
  {
  }

  /** The new block `c` is a copy of `b`; everything that `b` points to gained a reference per field. */
  ghost predicate Copied(s: State, t: State, b: Addr, c: Addr) {
    && t.Inv() && t.dying == {} && t.held == s.held + multiset{c}
    && b in s.mem && c !in s.mem && t.mem.Keys == s.mem.Keys + {c} && c in t.mem && t.mem[c] == s.mem[b].(rc := 0)
    && SameUpToCounts(s.mem, t.mem) && BumpedBy(s.mem, t.mem, s.mem[b].fields)
  }

  /** A copy of block `b`, with a reference of its own to everything `b` points to. */
  method AllocCopy(h: RcHeap, b: Addr) returns (c: Addr)
    requires h.S().Inv() && h.dying == {} && b in h.mem
    modifies h
    ensures Copied(old(h.S()), h.S(), b, c)
  {
    hide State.Inv, SameUpToCounts, BumpedBy, Bumped, Boxes, Incremented;
    ghost var s := h.S();
    c := FreshAddr(h);
    StartKeepsInv(s, b, c);
    OwnedFields(s, b, c);
    ghost var t := Started(s, b, c);
    h.mem := h.mem[c := h.mem[b].(rc := 0)];
    h.own, h.dying := t.own, t.dying;
    assert h.S() == t;
    NothingBumped(s.mem, h.mem, c);
    var fields := h.mem[c].fields;
    for i := 0 to |fields|
      invariant h.S().Inv() && h.dying == {c} && h.held == s.held && c in h.own && h.own[c] == fields[..i]
      invariant Copying(s.mem, h.mem, c, fields, i) && h.mem[c] == s.mem[b].(rc := 0)
    {
      ghost var m := h.mem;
      DupField(h, c, fields[i]);
      FieldBumped(s.mem, m, c, fields, i);
      assert fields[..i + 1] == fields[..i] + [fields[i]];
    }
    assert fields[..|fields|] == fields;
    CompleteKeepsInv(h.S(), c);
    ghost var w := Completed(h.S(), c);
    h.dying, h.held := w.dying, w.held;
    assert h.S() == w;
  }

  /** While `c` is being made, the first `i` fields have been duplicated. */
  ghost predicate Copying(m0: Mem, m: Mem, c: Addr, fields: seq<Box>, i: nat) {
    && i <= |fields| && c !in m0 && m.Keys == m0.Keys + {c}
    && SameUpToCounts(m0, m) && BumpedBy(m0, m, fields[..i])
  }

  lemma FieldBumped(m0: Mem, m: Mem, c: Addr, fields: seq<Box>, i: nat)
    requires i < |fields| && Copying(m0, m, c, fields, i) && (fields[i].Ptr? ==> fields[i].a in m0 && fields[i].a in m)
    ensures Copying(m0, WithDup(m, fields[i]), c, fields, i + 1) && c in m && WithDup(m, fields[i])[c] == m[c]
  {
    hide BumpedBy, SameUpToCounts, Incremented;
    assert c in m0.Keys + {c};
    if fields[i].Ptr? {
      OneBumped(m0, m, WithDup(m, fields[i]), fields, i);
    } else {
      NoneBumped(m0, m, fields, i);
    }
  }

  lemma OwnedFields(s: State, b: Addr, c: Addr)
    requires s.Inv() && s.dying == {} && b in s.mem && c !in s.mem
    ensures forall i | 0 <= i < |s.mem[b].fields| && s.mem[b].fields[i].Ptr? :: s.mem[b].fields[i].a in s.mem && s.mem[b].fields[i].a != c
  {
    forall i | 0 <= i < |s.mem[b].fields| && s.mem[b].fields[i].Ptr?
      ensures s.mem[b].fields[i].a in s.mem
    {
      BoxesMember(s.own, b, s.mem[b].fields[i]);
      assert s.Refs(s.mem[b].fields[i].a) > 0;
    }
  }

  lemma NothingBumped(m: Mem, m': Mem, c: Addr)
    requires c !in m && c in m' && m' == m[c := m'[c]]
    ensures SameUpToCounts(m, m') && BumpedBy(m, m', m'[c].fields[..0])
  {
  }

  lemma OneBumped(m0: Mem, m: Mem, m': Mem, fields: seq<Box>, i: nat)
    requires i < |fields| && fields[i].Ptr? && fields[i].a in m0 && fields[i].a in m
    requires m' == m[fields[i].a := m[fields[i].a].(rc := Incremented(m[fields[i].a].rc))]
    requires SameUpToCounts(m0, m) && BumpedBy(m0, m, fields[..i])
    ensures SameUpToCounts(m0, m') && BumpedBy(m0, m', fields[..i + 1])
  {
    assert fields[..i + 1] == fields[..i] + [fields[i]];
    assert multiset(fields[..i + 1]) == multiset(fields[..i]) + multiset{fields[i]};
  }

  lemma NoneBumped(m0: Mem, m: Mem, fields: seq<Box>, i: nat)
    requires i < |fields| && !fields[i].Ptr? && BumpedBy(m0, m, fields[..i])
    ensures BumpedBy(m0, m, fields[..i + 1])
  {
    assert fields[..i + 1] == fields[..i] + [fields[i]];
    assert multiset(fields[..i + 1]) == multiset(fields[..i]) + multiset{fields[i]};
  }

  // ------- overwriting a field -------

  ghost function Stored(s: State, b: Addr, i: nat, x: Box): State
    requires b in s.mem && b in s.own && i < |s.mem[b].fields|
  {
    var v := s.mem[b].fields[i];
    var fields := s.mem[b].fields[i := x];
    State(s.mem[b := s.mem[b].(fields := fields)], s.own[b := fields], s.dying,
          s.held - Ref(x) + Ref(v))
  }

  lemma StoreKeepsRefs(s: State, b: Addr, i: nat, x: Box)
    requires b in s.mem && b in s.own && i < |s.mem[b].fields| && s.own[b] == s.mem[b].fields && (x.Ptr? ==> x.a in s.held)
    ensures forall a :: Stored(s, b, i, x).Refs(a) == s.Refs(a)
  {
    hide Boxes;
    var t := Stored(s, b, i, x);
    var v := s.mem[b].fields[i];
    BoxesUpdate(s.own, b, t.own[b]);
    ReplaceBoxes(s.own[b], i, x, Boxes(s.own), Boxes(t.own));
    Exchanged(s.held, Boxes(s.own), Boxes(t.own), v, x);
  }

  /** The box `x` moves from the held references to the fields, and `v` the other way. */
  lemma Exchanged(held: multiset<Addr>, p: multiset<Box>, q: multiset<Box>, v: Box, x: Box)
    requires q + multiset{v} == p + multiset{x} && (x.Ptr? ==> x.a in held)
    ensures forall a :: (held - Ref(x) + Ref(v))[a] + q[Ptr(a)] == held[a] + p[Ptr(a)]
  {
    forall a ensures (held - Ref(x) + Ref(v))[a] + q[Ptr(a)] == held[a] + p[Ptr(a)] {
      assert (q + multiset{v})[Ptr(a)] == (p + multiset{x})[Ptr(a)];
    }
  }

  lemma StoreKeepsInv(s: State, b: Addr, i: nat, x: Box)
    requires s.Inv() && b in s.mem && b !in s.dying && i < |s.mem[b].fields| < SCAN_FSIZE_MAX && (x.Ptr? ==> x.a in s.held)
    ensures Stored(s, b, i, x).Inv()
  {
    hide State.Refs, Counts;
    var t := Stored(s, b, i, x);
    StoreKeepsRefs(s, b, i, x);
    assert Shape(s.mem[b]);
    forall a | a in t.mem ensures Shape(t.mem[a]) {
      assert Shape(s.mem[a]);
    }
  }

  lemma ReplaceBoxes(f: seq<Box>, i: nat, x: Box, p: multiset<Box>, q: multiset<Box>)
    requires i < |f| && q + multiset(f) == p + multiset(f[i := x])
    ensures q + multiset{f[i]} == p + multiset{x}
  {
    var g := f[i := x];
    assert f == f[..i] + [f[i]] + f[i + 1..];
    assert g == f[..i] + [x] + f[i + 1..];
    var m := multiset(f[..i]) + multiset(f[i + 1..]);
    assert multiset(f) == m + multiset{f[i]} && multiset(g) == m + multiset{x};
    forall y ensures (q + multiset{f[i]})[y] == (p + multiset{x})[y] {
      assert (q + multiset(f))[y] == (p + multiset(g))[y];
    }
  }

  method Store(h: RcHeap, b: Addr, i: nat, x: Box)
    requires h.S().Inv() && b in h.mem && b !in h.dying && i < |h.mem[b].fields| < SCAN_FSIZE_MAX && (x.Ptr? ==> x.a in h.held)
    modifies h
    ensures b in old(h.mem) && b in old(h.own) && h.S() == Stored(old(h.S()), b, i, x) && h.S().Inv()
  {
    StoreKeepsInv(h.S(), b, i, x);
    hide State.Inv;
    ghost var t := Stored(h.S(), b, i, x);
    h.mem := h.mem[b := h.mem[b].(fields := h.mem[b].fields[i := x])];
    h.own, h.held := t.own, t.held;
  }

  lemma InvIsExact(s: State)
    requires s.Inv() && s.dying == {}
    ensures s.own == FieldsOf(s.mem) && Exact(s.mem, s.held)
  {
    assert s.own == FieldsOf(s.mem);
    assert s == State(s.mem, FieldsOf(s.mem), {}, s.held);
  }

  lemma ExactIsInv(s: State)
    requires Exact(s.mem, s.held) && s.own == FieldsOf(s.mem) && s.dying == {}
    ensures s.Inv()
  {
    assert s == State(s.mem, FieldsOf(s.mem), {}, s.held);
  }

  /** Drop a reference in the middle of other work. */
  method DropOne(h: RcHeap, a: Addr)
    requires h.S().Inv() && h.dying == {} && a in h.held
    modifies h
    ensures h.S().Inv() && h.dying == {} && h.held == old(h.held) - multiset{a}
    ensures Released(old(h.S()), h.S(), {})
    ensures a in old(h.mem) && (!LastReference(old(h.mem)[a].rc) ==> h.S() == GiveUp(old(h.S()), a))
  {
    hide State.Inv, Released, Exact;
    InvIsExact(h.S());
    h.Drop(a);
    ExactIsInv(h.S());
  }
}
