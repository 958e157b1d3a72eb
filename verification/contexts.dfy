/** First-class constructor contexts: a heap structure with one hole, reached along the context
    path in the `_field_idx` of its blocks. A unique context is filled in place, a shared one is
    copied along the path first; either way it acts as a pure one-hole context. */
module Contexts {
  import opened Heap

  // ------- pure trees and contexts -------

  datatype Tree = Leaf(x: Box) | Node(tag: nat, children: seq<Tree>)

  datatype Ctx = Hole | Around(tag: nat, before: seq<Tree>, inner: Ctx, after: seq<Tree>)

  function Plug(c: Ctx, t: Tree): Tree {
    match c
    case Hole => t
    case Around(tag, before, inner, after) => Node(tag, before + [Plug(inner, t)] + after)
  }

  function Compose(c: Ctx, d: Ctx): Ctx {
    match c
    case Hole => d
    case Around(tag, before, inner, after) => Around(tag, before, Compose(inner, d), after)
  }

  lemma {:induction false} PlugCompose(c: Ctx, d: Ctx, t: Tree)
    ensures Plug(Compose(c, d), t) == Plug(c, Plug(d, t))
  {
    if c.Around? {
      PlugCompose(c.inner, d, t);
    }
  }

  /** The hole is the unit of composition, and what was plugged in can be told from the result. */
  lemma {:induction false} HoleIsUnit(c: Ctx)
    ensures Compose(Hole, c) == c && Compose(c, Hole) == c && forall t :: Plug(Hole, t) == t
  {
    if c.Around? {
      HoleIsUnit(c.inner);
    }
  }

  lemma {:induction false} PlugInjective(c: Ctx, t: Tree, u: Tree)
    requires Plug(c, t) == Plug(c, u)
    ensures t == u
  {
    if c.Around? {
      var n := |c.before|;
      assert Plug(c, t).children[n] == Plug(c.inner, t) && Plug(c, u).children[n] == Plug(c.inner, u);
      PlugInjective(c.inner, t, u);
    }
  }

  lemma {:induction false} ComposeAssociative(c: Ctx, d: Ctx, e: Ctx)
    ensures Compose(Compose(c, d), e) == Compose(c, Compose(d, e))
  {
    if c.Around? {
      ComposeAssociative(c.inner, d, e);
    }
  }

  // ------- what a heap structure stands for -------

  /** The box `v` is the root of a structure that unfolds to the tree `t`. */
  predicate Represents(mem: Mem, v: Box, t: Tree)
    decreases t
  {
    match t
    case Leaf(x) => !v.Ptr? && v == x
    case Node(tag, children) =>
      && v.Ptr? && v.a in mem && mem[v.a].tag == tag && |mem[v.a].fields| == |children|
      && forall i | 0 <= i < |children| :: Represents(mem, mem[v.a].fields[i], children[i])
  }

  /** A structure unfolds to one tree only. */
  lemma {:induction false} OneTree(mem: Mem, v: Box, t: Tree, u: Tree)
    requires Represents(mem, v, t) && Represents(mem, v, u)
    ensures t == u
    decreases t
  {
    if t.Node? {
      forall i | 0 <= i < |t.children|
        ensures t.children[i] == u.children[i]
      {
        OneTree(mem, mem[v.a].fields[i], t.children[i], u.children[i]);
      }
    }
  }

  /** The address of a field. */
  datatype FieldAddr = FieldAddr(b: Addr, i: nat)

  /** The field through which the context path leaves block `b`. */
  predicate OnPath(mem: Mem, a: Addr) {
    a in mem && 0 < mem[a].idx <= |mem[a].fields| < SCAN_FSIZE_MAX
  }

  function PathField(mem: Mem, a: Addr): FieldAddr
    requires OnPath(mem, a)
  {
    FieldAddr(a, mem[a].idx - 1)
  }

  function Content(mem: Mem, f: FieldAddr): Box
    requires f.b in mem && f.i < |mem[f.b].fields|
  {
    mem[f.b].fields[f.i]
  }

  /** From `v` the context path leads to `hole`, and the structure around it is `c`. */
  predicate IsCtx(mem: Mem, v: Box, hole: FieldAddr, c: Ctx)
    decreases c
  {
    && c.Around? && v.Ptr? && OnPath(mem, v.a) && Siblings(mem, v.a, c.tag, c.before, c.after)
    && if PathField(mem, v.a) == hole then c.inner == Hole
       else IsCtx(mem, Content(mem, PathField(mem, v.a)), hole, c.inner)
  }

  /** The other fields of block `a` on a path. */
  predicate Siblings(mem: Mem, a: Addr, tag: nat, before: seq<Tree>, after: seq<Tree>)
    requires OnPath(mem, a)
  {
    var i := mem[a].idx - 1;
    && mem[a].tag == tag && |before| == i && |mem[a].fields| == i + 1 + |after|
    && (forall k | 0 <= k < i :: Represents(mem, mem[a].fields[k], before[k]))
    && (forall k | 0 <= k < |after| :: Represents(mem, mem[a].fields[i + 1 + k], after[k]))
  }

  /** The blocks on the path. */
  function PathBlocks(mem: Mem, v: Box, hole: FieldAddr, c: Ctx): set<Addr>
    decreases c
  {
    if !c.Around? || !v.Ptr? || !OnPath(mem, v.a) then {}
    else {v.a} + if PathField(mem, v.a) == hole then {} else PathBlocks(mem, Content(mem, PathField(mem, v.a)), hole, c.inner)
  }

  /** All blocks on the path have a single reference. */
  predicate AllUnique(mem: Mem, v: Box, hole: FieldAddr, c: Ctx) {
    forall a | a in PathBlocks(mem, v, hole, c) :: a in mem && mem[a].rc == 0
  }

  lemma {:induction false} HoleOnPath(mem: Mem, v: Box, hole: FieldAddr, c: Ctx)
    requires IsCtx(mem, v, hole, c)
    ensures hole.b in PathBlocks(mem, v, hole, c) && OnPath(mem, hole.b) && hole == PathField(mem, hole.b)
    decreases c
  {
    if PathField(mem, v.a) != hole {
      HoleOnPath(mem, Content(mem, PathField(mem, v.a)), hole, c.inner);
    }
  }

  /** The blocks below the root have a single reference, and the hole holds no pointer. Whether
      the root is shared does not matter: this is what every holder of a context relies on. */
  predicate ValidCtx(mem: Mem, v: Box, hole: FieldAddr, c: Ctx) {
    && IsCtx(mem, v, hole, c)
    && hole.b in mem && hole.i < |mem[hole.b].fields| && !Content(mem, hole).Ptr?
    && forall a | a in PathBlocks(mem, v, hole, c) && a != v.a :: a in mem && mem[a].rc == 0
  }

  /** And a path with a hole is one context only. */
  lemma {:induction false} OneCtx(mem: Mem, v: Box, hole: FieldAddr, c: Ctx, d: Ctx)
    requires IsCtx(mem, v, hole, c) && IsCtx(mem, v, hole, d)
    ensures c == d
    decreases c
  {
    var i := mem[v.a].idx - 1;
    forall k | 0 <= k < i
      ensures c.before[k] == d.before[k]
    {
      OneTree(mem, mem[v.a].fields[k], c.before[k], d.before[k]);
    }
    forall k | 0 <= k < |c.after|
      ensures c.after[k] == d.after[k]
    {
      OneTree(mem, mem[v.a].fields[i + 1 + k], c.after[k], d.after[k]);
    }
    if PathField(mem, v.a) != hole {
      OneCtx(mem, Content(mem, PathField(mem, v.a)), hole, c.inner, d.inner);
    }
  }

  // ------- structures depend neither on counts nor on the release of other references -------

  predicate Alive(m: Mem, v: Box) {
    v.Ptr? ==> v.a in m
  }

  /** What exists in both heaps is the same, up to counts. */
  predicate Unchanged(m: Mem, m': Mem) {
    forall a | a in m && a in m' :: m'[a] == m[a].(rc := m'[a].rc)
  }

  lemma {:induction false} FieldsAlive(t: State, a: Addr, i: nat)
    requires t.Inv() && t.dying == {} && a in t.mem && i < |t.mem[a].fields|
    ensures Alive(t.mem, t.mem[a].fields[i])
  {
    var v := t.mem[a].fields[i];
    if v.Ptr? {
      BoxesMember(t.own, a, v);
      assert t.Refs(v.a) > 0;
    }
  }

  lemma {:induction false} RepresentsSurvives(m: Mem, t: State, v: Box, tree: Tree)
    requires t.Inv() && t.dying == {} && Unchanged(m, t.mem) && Alive(t.mem, v)
    requires Represents(m, v, tree)
    ensures Represents(t.mem, v, tree)
    decreases tree
  {
    hide State.Inv;
    if tree.Node? {
      assert t.mem[v.a].fields == m[v.a].fields;
      forall i | 0 <= i < |tree.children|
        ensures Represents(t.mem, t.mem[v.a].fields[i], tree.children[i])
      {
        FieldsAlive(t, v.a, i);
        RepresentsSurvives(m, t, m[v.a].fields[i], tree.children[i]);
      }
    }
  }

  /** The fields around a path survive, also in a copy `a'` of the block. */
  lemma {:induction false} SiblingsSurvive(m: Mem, t: State, a: Addr, a': Addr, tag: nat, before: seq<Tree>, after: seq<Tree>)
    requires t.Inv() && t.dying == {} && Unchanged(m, t.mem)
    requires OnPath(m, a) && Siblings(m, a, tag, before, after)
    requires a' in t.mem && t.mem[a'] == m[a].(rc := t.mem[a'].rc)
    ensures OnPath(t.mem, a') && Siblings(t.mem, a', tag, before, after)
  {
    hide State.Inv, Unchanged;
    var i := m[a].idx - 1;
    forall k | 0 <= k < i
      ensures Represents(t.mem, t.mem[a'].fields[k], before[k])
    {
      FieldsAlive(t, a', k);
      RepresentsSurvives(m, t, m[a].fields[k], before[k]);
    }
    forall k | 0 <= k < |after|
      ensures Represents(t.mem, t.mem[a'].fields[i + 1 + k], after[k])
    {
      FieldsAlive(t, a', i + 1 + k);
      RepresentsSurvives(m, t, m[a].fields[i + 1 + k], after[k]);
    }
  }

  lemma {:induction false} CtxSurvives(m: Mem, t: State, v: Box, hole: FieldAddr, c: Ctx)
    requires t.Inv() && t.dying == {} && Unchanged(m, t.mem) && Alive(t.mem, v)
    requires IsCtx(m, v, hole, c)
    ensures IsCtx(t.mem, v, hole, c) && PathBlocks(t.mem, v, hole, c) == PathBlocks(m, v, hole, c)
    ensures forall a | a in PathBlocks(t.mem, v, hole, c) :: a in t.mem
    decreases c
  {
    hide State.Inv, Siblings;
    assert t.mem[v.a] == m[v.a].(rc := t.mem[v.a].rc);
    SiblingsSurvive(m, t, v.a, v.a, c.tag, c.before, c.after);
    var f := PathField(m, v.a);
    if f != hole {
      FieldsAlive(t, v.a, f.i);
      CtxSurvives(m, t, Content(m, f), hole, c.inner);
    }
  }

  // ------- a unique path is referenced from nowhere else -------

  /** No block outside `p` points into it. */
  predicate Isolated(mem: Mem, p: set<Addr>) {
    forall a, x | a in mem && a !in p && Ptr(x) in mem[a].fields :: x !in p
  }

  predicate Outside(p: set<Addr>, v: Box) {
    v.Ptr? ==> v.a !in p
  }

  lemma {:induction false} TwoOwners(own: map<Addr, seq<Box>>, a: Addr, b: Addr, x: Box)
    requires a in own && b in own && a != b && x in own[a] && x in own[b]
    ensures Boxes(own)[x] >= 2
  {
    BoxesRemove(own, a);
    BoxesRemove(own - {a}, b);
  }

  lemma {:induction false} TwoOccurrences(own: map<Addr, seq<Box>>, a: Addr, i: nat, j: nat)
    requires a in own && i < |own[a]| && j < |own[a]| && i != j && own[a][i] == own[a][j]
    ensures Boxes(own)[own[a][i]] >= 2
  {
    BoxesRemove(own, a);
    var s, x := own[a], own[a][i];
    var lo, hi := if i < j then i else j, if i < j then j else i;
    assert s == s[..lo] + [x] + s[lo + 1..hi] + [x] + s[hi + 1..];
    assert multiset(s)[x] >= 2;
  }

  /** A block with a single reference has no other: neither a second field nor a held reference. */
  lemma {:induction false} SingleOwner(s: State, a: Addr, i: nat, x: Addr)
    requires s.Inv() && s.dying == {} && a in s.mem && i < |s.mem[a].fields| && s.mem[a].fields[i] == Ptr(x)
    requires x in s.mem && s.mem[x].rc == 0
    ensures x !in s.held
    ensures forall b | b in s.mem && Ptr(x) in s.mem[b].fields :: b == a
    ensures forall j | 0 <= j < |s.mem[a].fields| && s.mem[a].fields[j] == Ptr(x) :: j == i
  {
    assert Counts(s.mem[x].rc, s.Refs(x));
    BoxesMember(s.own, a, Ptr(x));
    forall b | b in s.mem && Ptr(x) in s.mem[b].fields
      ensures b == a
    {
      if b != a {
        TwoOwners(s.own, a, b, Ptr(x));
      }
    }
    forall j | 0 <= j < |s.mem[a].fields| && s.mem[a].fields[j] == Ptr(x)
      ensures j == i
    {
      if j != i {
        TwoOccurrences(s.own, a, i, j);
      }
    }
  }

  /** A unique block with a held reference is in no field. */
  lemma {:induction false} HeldOwner(s: State, x: Addr)
    requires s.Inv() && s.dying == {} && x in s.held && x in s.mem && s.mem[x].rc == 0
    ensures s.held[x] == 1
    ensures forall b | b in s.mem :: Ptr(x) !in s.mem[b].fields
  {
    assert Counts(s.mem[x].rc, s.Refs(x));
    forall b | b in s.mem
      ensures Ptr(x) !in s.mem[b].fields
    {
      if Ptr(x) in s.mem[b].fields {
        BoxesMember(s.own, b, Ptr(x));
      }
    }
  }

  /** Whoever points to a block of the path below the root is its predecessor on the path, through
      the path field; and nobody holds a reference to it. */
  lemma {:induction false} PathOwners(s: State, v: Box, hole: FieldAddr, c: Ctx)
    requires s.Inv() && s.dying == {} && IsCtx(s.mem, v, hole, c) && AllUnique(s.mem, v, hole, c)
    ensures var p := PathBlocks(s.mem, v, hole, c);
      && (forall a, i | a in s.mem && 0 <= i < |s.mem[a].fields| && s.mem[a].fields[i].Ptr? && s.mem[a].fields[i].a in p && s.mem[a].fields[i].a != v.a ::
            a in p && i == s.mem[a].idx - 1 && FieldAddr(a, i) != hole)
      && (forall x | x in p && x != v.a :: x !in s.held)
    decreases c
  {
    var f := PathField(s.mem, v.a);
    if f != hole {
      var w := Content(s.mem, f);
      PathOwners(s, w, hole, c.inner);
      SingleOwner(s, v.a, f.i, w.a);
    }
  }

  lemma {:induction false} UniquePathIsIsolated(s: State, v: Box, hole: FieldAddr, c: Ctx)
    requires s.Inv() && s.dying == {} && IsCtx(s.mem, v, hole, c) && AllUnique(s.mem, v, hole, c) && v.a in s.held
    ensures var p := PathBlocks(s.mem, v, hole, c);
      && Isolated(s.mem, p)
      && (forall a, i | a in p && a in s.mem && 0 <= i < |s.mem[a].fields| && i != s.mem[a].idx - 1 :: Outside(p, s.mem[a].fields[i]))
      && (forall x | x in s.held - multiset{v.a} :: x !in p)
  {
    PathOwners(s, v, hole, c);
    HeldOwner(s, v.a);
    var p := PathBlocks(s.mem, v, hole, c);
    forall a, x | a in s.mem && a !in p && Ptr(x) in s.mem[a].fields
      ensures x !in p
    {
      var i :| 0 <= i < |s.mem[a].fields| && s.mem[a].fields[i] == Ptr(x);
    }
  }

  // ------- filling the hole in place -------

  /** The heap with `x` written into field `f`. */
  function Written(m: Mem, f: FieldAddr, x: Box): Mem
    requires f.b in m && f.i < |m[f.b].fields|
  {
    m[f.b := m[f.b].(fields := m[f.b].fields[f.i := x])]
  }

  /** `m'` differs from `m` at most inside `p`. */
  predicate SameOutside(m: Mem, m': Mem, p: set<Addr>) {
    forall a | a in m && a !in p :: a in m' && m'[a] == m[a]
  }

  lemma {:induction false} OutsideRepresents(m: Mem, m': Mem, p: set<Addr>, v: Box, t: Tree)
    requires Isolated(m, p) && SameOutside(m, m', p) && Outside(p, v) && Represents(m, v, t)
    ensures Represents(m', v, t)
    decreases t
  {
    if t.Node? {
      forall i | 0 <= i < |t.children|
        ensures Represents(m', m'[v.a].fields[i], t.children[i])
      {
        assert m[v.a].fields[i].Ptr? ==> Ptr(m[v.a].fields[i].a) in m[v.a].fields;
        OutsideRepresents(m, m', p, m[v.a].fields[i], t.children[i]);
      }
    }
  }

  lemma {:induction false} OutsideSiblings(m: Mem, m': Mem, p: set<Addr>, a: Addr, tag: nat, before: seq<Tree>, after: seq<Tree>)
    requires Isolated(m, p) && SameOutside(m, m', p) && OnPath(m, a) && Siblings(m, a, tag, before, after)
    requires forall i | 0 <= i < |m[a].fields| && i != m[a].idx - 1 :: Outside(p, m[a].fields[i])
    requires a in m' && m'[a].idx == m[a].idx && m'[a].tag == m[a].tag && |m'[a].fields| == |m[a].fields|
    requires forall i | 0 <= i < |m[a].fields| && i != m[a].idx - 1 :: m'[a].fields[i] == m[a].fields[i]
    ensures OnPath(m', a) && Siblings(m', a, tag, before, after)
  {
    var i := m[a].idx - 1;
    forall k | 0 <= k < i
      ensures Represents(m', m'[a].fields[k], before[k])
    {
      OutsideRepresents(m, m', p, m[a].fields[k], before[k]);
    }
    forall k | 0 <= k < |after|
      ensures Represents(m', m'[a].fields[i + 1 + k], after[k])
    {
      OutsideRepresents(m, m', p, m[a].fields[i + 1 + k], after[k]);
    }
  }

  lemma {:induction false} OutsideCtx(m: Mem, m': Mem, p: set<Addr>, v: Box, hole: FieldAddr, c: Ctx)
    requires Isolated(m, p) && SameOutside(m, m', p) && Outside(p, v) && IsCtx(m, v, hole, c)
    ensures IsCtx(m', v, hole, c) && PathBlocks(m', v, hole, c) == PathBlocks(m, v, hole, c)
    ensures PathBlocks(m, v, hole, c) !! p
    decreases c
  {
    var f := PathField(m, v.a);
    forall i | 0 <= i < |m[v.a].fields|
      ensures Outside(p, m[v.a].fields[i])
    {
      assert m[v.a].fields[i].Ptr? ==> Ptr(m[v.a].fields[i].a) in m[v.a].fields;
    }
    OutsideSiblings(m, m', p, v.a, c.tag, c.before, c.after);
    if f != hole {
      OutsideCtx(m, m', p, Content(m, f), hole, c.inner);
    }
  }

  /** The conditions under which a write to the hole is seen through the context only. */
  predicate Private(m: Mem, p: set<Addr>) {
    && Isolated(m, p)
    && forall a, i | a in p && OnPath(m, a) && 0 <= i < |m[a].fields| && i != m[a].idx - 1 :: Outside(p, m[a].fields[i])
  }

  /** Writing a tree into the hole plugs the context. */
  lemma {:induction false} FilledTree(m: Mem, p: set<Addr>, v: Box, hole: FieldAddr, c: Ctx, x: Box, t: Tree)
    requires Private(m, p) && IsCtx(m, v, hole, c) && PathBlocks(m, v, hole, c) <= p && hole.b in p && OnPath(m, hole.b) && hole == PathField(m, hole.b)
    requires Outside(p, x) && Represents(m, x, t)
    ensures Represents(Written(m, hole, x), v, Plug(c, t))
    decreases c
  {
    var m' := Written(m, hole, x);
    var f := PathField(m, v.a);
    OutsideSiblings(m, m', p, v.a, c.tag, c.before, c.after);
    if f == hole {
      OutsideRepresents(m, m', p, x, t);
    } else {
      FilledTree(m, p, Content(m, f), hole, c.inner, x, t);
    }
    PlugNode(m', v.a, c, t);
  }

  lemma {:induction false} PlugNode(m: Mem, a: Addr, c: Ctx, t: Tree)
    requires c.Around? && OnPath(m, a) && Siblings(m, a, c.tag, c.before, c.after)
    requires Represents(m, Content(m, PathField(m, a)), Plug(c.inner, t))
    ensures Represents(m, Ptr(a), Plug(c, t))
  {
    var children := c.before + [Plug(c.inner, t)] + c.after;
    var i := m[a].idx - 1;
    forall k | 0 <= k < |children|
      ensures Represents(m, m[a].fields[k], children[k])
    {
      if k > i {
        assert children[k] == c.after[k - i - 1] && m[a].fields[k] == m[a].fields[i + 1 + (k - i - 1)];
      }
    }
  }

  /** Writing a context into the hole composes the contexts. */
  lemma {:induction false} FilledCtx(m: Mem, p: set<Addr>, v: Box, hole: FieldAddr, c: Ctx, x: Box, hole': FieldAddr, d: Ctx)
    requires Private(m, p) && IsCtx(m, v, hole, c) && PathBlocks(m, v, hole, c) <= p && hole.b in p && OnPath(m, hole.b) && hole == PathField(m, hole.b)
    requires Outside(p, x) && IsCtx(m, x, hole', d)
    ensures var m' := Written(m, hole, x);
      && IsCtx(m', v, hole', Compose(c, d))
      && PathBlocks(m', v, hole', Compose(c, d)) == PathBlocks(m, v, hole, c) + PathBlocks(m, x, hole', d)
    decreases c
  {
    var m' := Written(m, hole, x);
    var f := PathField(m, v.a);
    OutsideSiblings(m, m', p, v.a, c.tag, c.before, c.after);
    OutsideCtx(m, m', p, x, hole', d);
    HoleOnPath(m, x, hole', d);
    assert f != hole';
    if f != hole {
      FilledCtx(m, p, Content(m, f), hole, c.inner, x, hole', d);
    }
  }
}
