/** The operations on first-class constructor contexts: copying the context path, applying a
    context to a value, extending one and composing two. */
module ContextOps {
  import opened Options
  import opened Heap
  import opened StacklessFree
  import opened HeapOps
  import opened Contexts

  // ------- blocks that only a path reaches -------

  /** Some block leads to `x` through its path field. */
  ghost predicate IsTarget(mem: Mem, x: Addr) {
    exists a :: OnPath(mem, a) && Content(mem, PathField(mem, a)) == Ptr(x)
  }

  /** A block whose single reference is held by running code, or is the path field of a block. */
  ghost predicate Solo(s: State, x: Addr) {
    x in s.mem && s.mem[x].rc == 0 && (x in s.held || IsTarget(s.mem, x))
  }

  /** How often copying block `b` duplicates a solo block: once if the path leads to it. */
  lemma {:induction false} SoloOccurs(s: State, b: Addr, x: Addr)
    requires s.Inv() && s.dying == {} && OnPath(s.mem, b) && Solo(s, x)
    ensures multiset(s.mem[b].fields)[Ptr(x)] == if Content(s.mem, PathField(s.mem, b)) == Ptr(x) then 1 else 0
  {
    hide State.Inv;
    if x in s.held {
      HeldOwner(s, x);
      assert Ptr(x) !in s.mem[b].fields;
    } else {
      var a :| OnPath(s.mem, a) && Content(s.mem, PathField(s.mem, a)) == Ptr(x);
      var i := s.mem[a].idx - 1;
      SingleOwner(s, a, i, x);
      if a == b {
        OccursOnce(s.mem[b].fields, i, Ptr(x));
      } else {
        assert Ptr(x) !in s.mem[b].fields;
      }
    }
  }

  lemma OccursOnce(f: seq<Box>, i: nat, v: Box)
    requires i < |f| && f[i] == v && forall j | 0 <= j < |f| && f[j] == v :: j == i
    ensures multiset(f)[v] == 1
  {
    assert f == f[..i] + [f[i]] + f[i + 1..];
    assert v !in f[..i] && v !in f[i + 1..];
  }

  /** All solo blocks still have a single reference, except that `cur` has one more. */
  ghost predicate SolosKept(s0: State, mem: Mem, cur: Option<Addr>) {
    forall x | Solo(s0, x) :: x in mem && mem[x].rc == if cur == Some(x) then 1 else 0
  }

  /** The block that the path leads to from `b`, if any. */
  function Target(mem: Mem, b: Addr): Option<Addr>
    requires OnPath(mem, b)
  {
    var v := Content(mem, PathField(mem, b));
    if v.Ptr? then Some(v.a) else None
  }

  lemma {:induction false} SolosAfterCopy(s0: State, s: State, t: State, b: Addr, c: Addr, cur: Option<Addr>)
    requires s0.Inv() && s0.dying == {} && OnPath(s0.mem, b) && SolosKept(s0, s.mem, cur)
    requires Copied(s, t, b, c) && s.mem[b].fields == s0.mem[b].fields
    ensures forall x | Solo(s0, x) ::
      (x in t.mem && t.mem[x].rc == (if cur == Some(x) then 1 else 0) + (if Target(s0.mem, b) == Some(x) then 1 else 0))
  {
    hide State.Inv, Solo, SameUpToCounts;
    forall x | Solo(s0, x)
      ensures x in t.mem && t.mem[x].rc == (if cur == Some(x) then 1 else 0) + (if Target(s0.mem, b) == Some(x) then 1 else 0)
    {
      SoloOccurs(s0, b, x);
      assert t.mem[x].rc == Bumped(s.mem[x].rc, multiset(s0.mem[b].fields)[Ptr(x)]);
      assert Bumped(0, 0) == 0 && Bumped(0, 1) == 1 && Bumped(1, 0) == 1 && Bumped(1, 1) == 2;
    }
  }

  // ------- copying the path -------

  /** The context of a single block: its path field is the hole. */
  function OneStep(c: Ctx): Ctx
    requires c.Around?
  {
    Around(c.tag, c.before, Hole, c.after)
  }

  /** Copying one more block of the path moves a step from the rest to the copied part. */
  lemma {:induction false} MoveStep(pre: Ctx, rest: Ctx)
    requires rest.Around?
    ensures Compose(Compose(pre, OneStep(rest)), rest.inner) == Compose(pre, rest)
    ensures Compose(OneStep(rest), rest.inner) == rest
  {
    ComposeAssociative(pre, OneStep(rest), rest.inner);
  }

  /** The path up to field `next` has been copied into new blocks from `cres` on. */
  ghost predicate CopiedPath(s0: State, s: State, cres: Addr, next: FieldAddr, pre: Ctx) {
    && s.Inv() && s.dying == {} && s.held == s0.held + multiset{cres}
    && SameUpToCounts(s0.mem, s.mem)
    && UniquePath(s.mem, cres, next, pre)
    && (forall a | a in PathBlocks(s.mem, Ptr(cres), next, pre) :: a !in s0.mem)
  }

  ghost predicate UniquePath(mem: Mem, a: Addr, hole: FieldAddr, c: Ctx) {
    IsCtx(mem, Ptr(a), hole, c) && AllUnique(mem, Ptr(a), hole, c)
  }

  /** A copied block is a context of its own. */
  lemma {:induction false} CopyIsCtx(s: State, t: State, b: Addr, c: Addr, ctx: Ctx)
    requires Copied(s, t, b, c) && ctx.Around? && OnPath(s.mem, b) && Siblings(s.mem, b, ctx.tag, ctx.before, ctx.after)
    ensures OnPath(t.mem, c) && PathField(t.mem, c) == FieldAddr(c, s.mem[b].idx - 1)
    ensures Content(t.mem, PathField(t.mem, c)) == Content(s.mem, PathField(s.mem, b))
    ensures UniquePath(t.mem, c, PathField(t.mem, c), OneStep(ctx))
    ensures PathBlocks(t.mem, Ptr(c), PathField(t.mem, c), OneStep(ctx)) == {c}
  {
    hide State.Inv, BumpedBy, Siblings;
    SiblingsSurvive(s.mem, t, b, c, ctx.tag, ctx.before, ctx.after);
  }

  lemma {:induction false} FirstCopied(s0: State, t: State, b: Addr, c: Addr, ctx: Ctx)
    requires Copied(s0, t, b, c) && ctx.Around? && OnPath(s0.mem, b) && Siblings(s0.mem, b, ctx.tag, ctx.before, ctx.after)
    ensures OnPath(t.mem, c) && CopiedPath(s0, t, c, PathField(t.mem, c), OneStep(ctx))
  {
    hide State.Inv, BumpedBy, Siblings, SameUpToCounts, UniquePath;
    CopyIsCtx(s0, t, b, c, ctx);
    assert UniquePath(t.mem, c, PathField(t.mem, c), OneStep(ctx));
    assert PathBlocks(t.mem, Ptr(c), PathField(t.mem, c), OneStep(ctx)) == {c};
  }

  /** Copying another block leaves the copied path as it is. */
  lemma {:induction false} PathAfterCopy(s0: State, s: State, t: State, cres: Addr, next: FieldAddr, pre: Ctx, b: Addr, c: Addr)
    requires s0.Inv() && s0.dying == {} && CopiedPath(s0, s, cres, next, pre)
    requires Copied(s, t, b, c) && b in s0.mem
    ensures UniquePath(t.mem, cres, next, pre)
    ensures PathBlocks(t.mem, Ptr(cres), next, pre) == PathBlocks(s.mem, Ptr(cres), next, pre)
    ensures forall a | a in PathBlocks(t.mem, Ptr(cres), next, pre) :: a !in s0.mem && a != c
  {
    hide State.Inv;
    CtxSurvives(s.mem, t, Ptr(cres), next, pre);
    forall a | a in PathBlocks(s.mem, Ptr(cres), next, pre)
      ensures a in t.mem && t.mem[a].rc == 0
    {
      NotInFields(s0, b, a);
      assert s.mem[b].fields == s0.mem[b].fields;
      assert t.mem[a].rc == Bumped(s.mem[a].rc, multiset(s.mem[b].fields)[Ptr(a)]);
      assert multiset(s.mem[b].fields)[Ptr(a)] == 0;
      assert Bumped(0, 0) == 0;
    }
  }

  lemma {:induction false} NotInFields(s: State, b: Addr, a: Addr)
    requires s.Inv() && s.dying == {} && b in s.mem && a !in s.mem
    ensures Ptr(a) !in s.mem[b].fields
  {
    if Ptr(a) in s.mem[b].fields {
      BoxesMember(s.own, b, Ptr(a));
    }
  }

  /** The field of the copied path that still leads to the original gets to lead to the copy. */
  lemma {:induction false} PathAfterStore(t: State, cres: Addr, next: FieldAddr, pre: Ctx, c: Addr, hole: FieldAddr, step: Ctx)
    requires t.Inv() && t.dying == {} && cres in t.held && UniquePath(t.mem, cres, next, pre)
    requires UniquePath(t.mem, c, hole, step) && c !in PathBlocks(t.mem, Ptr(cres), next, pre)
    ensures next.b in t.mem && next.i < |t.mem[next.b].fields| < SCAN_FSIZE_MAX && next.b in PathBlocks(t.mem, Ptr(cres), next, pre)
    ensures var m := Written(t.mem, next, Ptr(c));
      && UniquePath(m, cres, hole, Compose(pre, step))
      && PathBlocks(m, Ptr(cres), hole, Compose(pre, step)) == PathBlocks(t.mem, Ptr(cres), next, pre) + PathBlocks(t.mem, Ptr(c), hole, step)
  {
    hide State.Inv, IsCtx;
    UniquePathIsIsolated(t, Ptr(cres), next, pre);
    HoleOnPath(t.mem, Ptr(cres), next, pre);
    FilledCtx(t.mem, PathBlocks(t.mem, Ptr(cres), next, pre), Ptr(cres), next, pre, Ptr(c), hole, step);
  }

  /** The original block keeps the reference of its parent, so dropping ours does not free it. */
  lemma {:induction false} NotTheLast(s: State, b: Addr, p: Addr)
    requires s.Inv() && s.dying == {} && b in s.held && p in s.mem && Ptr(b) in s.mem[p].fields
    ensures b in s.mem && !LastReference(s.mem[b].rc)
    ensures GiveUp(s, b).Inv() && Unchanged(s.mem, GiveUp(s, b).mem)
  {
    BoxesMember(s.own, p, Ptr(b));
    assert s.Refs(b) >= 2;
    GiveUpKeepsInv(s, b);
    assert Counts(s.mem[b].rc, s.Refs(b));
  }

  lemma {:induction false} StillOnPath(s0: State, s: State, b: Addr, c: Ctx)
    requires s.Inv() && s.dying == {} && SameUpToCounts(s0.mem, s.mem)
    requires c.Around? && OnPath(s0.mem, b) && Siblings(s0.mem, b, c.tag, c.before, c.after)
    ensures OnPath(s.mem, b) && Siblings(s.mem, b, c.tag, c.before, c.after) && s.mem[b].idx == s0.mem[b].idx
    ensures Content(s.mem, PathField(s.mem, b)) == Content(s0.mem, PathField(s0.mem, b))
  {
    hide State.Inv, Siblings;
    SiblingsSurvive(s0.mem, s, b, b, c.tag, c.before, c.after);
  }

  lemma {:induction false} PathLinked(s0: State, s: State, t: State, cres: Addr, next: FieldAddr, pre: Ctx, b: Addr, c: Addr, rest: Ctx)
    requires s0.Inv() && s0.dying == {} && CopiedPath(s0, s, cres, next, pre) && Copied(s, t, b, c)
    requires rest.Around? && OnPath(s0.mem, b) && Siblings(s0.mem, b, rest.tag, rest.before, rest.after)
    ensures next.b in t.mem && next.i < |t.mem[next.b].fields| < SCAN_FSIZE_MAX && next.b !in s0.mem && next.b != c
    ensures OnPath(t.mem, c) && PathField(t.mem, c) == FieldAddr(c, s0.mem[b].idx - 1)
    ensures Content(t.mem, PathField(t.mem, c)) == Content(s0.mem, PathField(s0.mem, b))
    ensures UniquePath(Written(t.mem, next, Ptr(c)), cres, PathField(t.mem, c), Compose(pre, OneStep(rest)))
    ensures forall a | a in PathBlocks(Written(t.mem, next, Ptr(c)), Ptr(cres), PathField(t.mem, c), Compose(pre, OneStep(rest))) :: a !in s0.mem
  {
    hide State.Inv, Siblings, BumpedBy, UniquePath, PathBlocks, Compose;
    PathAfterCopy(s0, s, t, cres, next, pre, b, c);
    StillOnPath(s0, s, b, rest);
    CopyIsCtx(s, t, b, c, rest);
    PathAfterStore(t, cres, next, pre, c, PathField(t.mem, c), OneStep(rest));
  }

  lemma {:induction false} PathReleased(u: Mem, w: State, b: Addr, cres: Addr, hole: FieldAddr, ctx: Ctx)
    requires w.Inv() && w.dying == {} && cres in w.mem && b in u && b in w.mem && w.mem == u[b := u[b].(rc := w.mem[b].rc)]
    requires UniquePath(u, cres, hole, ctx) && b !in PathBlocks(u, Ptr(cres), hole, ctx)
    ensures UniquePath(w.mem, cres, hole, ctx)
    ensures PathBlocks(w.mem, Ptr(cres), hole, ctx) == PathBlocks(u, Ptr(cres), hole, ctx)
  {
    hide State.Inv, IsCtx, PathBlocks;
    CtxSurvives(u, w, Ptr(cres), hole, ctx);
  }

  /** The copied block `c` takes the place of `b` in field `next`, and the reference to `b` is dropped. */
  method LinkCopy(h: RcHeap, next: FieldAddr, c: Addr, b: Addr, ghost p: Addr)
    requires h.S().Inv() && h.dying == {} && c in h.held
    requires next.b in h.mem && next.i < |h.mem[next.b].fields| < SCAN_FSIZE_MAX && Content(h.mem, next) == Ptr(b)
    requires p in h.mem && p != next.b && Ptr(b) in h.mem[p].fields
    modifies h
    ensures h.S().Inv() && h.dying == {} && h.held == old(h.held) - multiset{c}
    ensures var m := Written(old(h.mem), next, Ptr(c));
      b in m && !LastReference(m[b].rc) && h.mem == m[b := m[b].(rc := Decremented(m[b].rc))]
  {
    hide State.Inv, Decremented, LastReference, Boxes;
    Store(h, next.b, next.i, Ptr(c));
    assert p in h.mem && Ptr(b) in h.mem[p].fields && b in h.held;
    NotTheLast(h.S(), b, p);
    DropOne(h, b);
    assert old(h.held) - multiset{c} + multiset{b} - multiset{b} == old(h.held) - multiset{c};
  }

  /** The heap after `LinkCopy`. */
  function Relinked(m: Mem, next: FieldAddr, c: Addr, b: Addr): Mem
    requires next.b in m && next.i < |m[next.b].fields| && b in m
  {
    var u := Written(m, next, Ptr(c));
    u[b := u[b].(rc := Decremented(u[b].rc))]
  }

  lemma {:induction false} SolosAfterLink(s0: State, s: State, t: State, next: FieldAddr, b: Addr, c: Addr)
    requires s0.Inv() && s0.dying == {} && OnPath(s0.mem, b) && SolosKept(s0, s.mem, Some(b))
    requires Copied(s, t, b, c) && s.mem[b].fields == s0.mem[b].fields
    requires next.b in t.mem && next.i < |t.mem[next.b].fields| && next.b !in s0.mem
    ensures SolosKept(s0, Relinked(t.mem, next, c, b), Target(s0.mem, b))
  {
    hide State.Inv, SameUpToCounts, BumpedBy;
    SolosAfterCopy(s0, s, t, b, c, Some(b));
  }

  lemma {:induction false} RelinkedPath(s0: State, s: State, t: State, w: State, cres: Addr, next: FieldAddr, pre: Ctx, b: Addr, c: Addr, rest: Ctx)
    requires s0.Inv() && s0.dying == {} && CopiedPath(s0, s, cres, next, pre) && Copied(s, t, b, c)
    requires rest.Around? && OnPath(s0.mem, b) && Siblings(s0.mem, b, rest.tag, rest.before, rest.after)
    requires next.b in t.mem && next.i < |t.mem[next.b].fields|
    requires w.Inv() && w.dying == {} && w.held == t.held - multiset{c} && w.mem == Relinked(t.mem, next, c, b)
    ensures OnPath(w.mem, c) && PathField(w.mem, c) == FieldAddr(c, s0.mem[b].idx - 1)
    ensures CopiedPath(s0, w, cres, PathField(w.mem, c), Compose(pre, OneStep(rest)))
    ensures Content(w.mem, PathField(w.mem, c)) == Content(s0.mem, PathField(s0.mem, b))
  {
    hide State.Inv, Siblings, BumpedBy, UniquePath, PathBlocks, Compose, Decremented;
    PathLinked(s0, s, t, cres, next, pre, b, c, rest);
    assert w.held == s.held;
    HeldIsNormal(w, cres);
    PathReleased(Written(t.mem, next, Ptr(c)), w, b, cres, PathField(t.mem, c), Compose(pre, OneStep(rest)));
  }

  // ------- what other holders see -------

  /** Whoever holds one of the references `held` sees the same trees and contexts in `m'` as in `m`,
      and what only they referenced is still unique. */
  ghost predicate Undisturbed(m: Mem, m': Mem, held: multiset<Addr>) {
    && (forall v, tree | Represents(m, v, tree) && (v.Ptr? ==> v.a in held) :: Represents(m', v, tree))
    && (forall v, hole, c | ValidCtx(m, v, hole, c) && v.Ptr? && v.a in held :: ValidCtx(m', v, hole, c))
    && (forall a | a in held && a in m && m[a].rc == 0 :: a in m' && m'[a].rc == 0)
  }

  /** The blocks below the root of a context are targets of path fields. */
  lemma {:induction false} InnerIsTarget(mem: Mem, v: Box, hole: FieldAddr, c: Ctx, x: Addr)
    requires IsCtx(mem, v, hole, c) && x in PathBlocks(mem, v, hole, c) && x != v.a
    ensures IsTarget(mem, x)
    decreases c
  {
    var w := Content(mem, PathField(mem, v.a));
    if w != Ptr(x) {
      InnerIsTarget(mem, w, hole, c.inner, x);
    }
  }

  lemma {:induction false} ValidSurvives(s: State, t: State, v: Box, hole: FieldAddr, c: Ctx)
    requires t.Inv() && t.dying == {} && Unchanged(s.mem, t.mem) && ValidCtx(s.mem, v, hole, c) && v.Ptr? && v.a in t.mem
    requires forall x | Solo(s, x) && x in t.mem :: t.mem[x].rc == 0
    ensures ValidCtx(t.mem, v, hole, c)
  {
    hide State.Inv, IsCtx, PathBlocks, IsTarget;
    CtxSurvives(s.mem, t, v, hole, c);
    HoleOnPath(t.mem, v, hole, c);
    forall x | x in PathBlocks(s.mem, v, hole, c) && x != v.a
      ensures t.mem[x].rc == 0
    {
      InnerIsTarget(s.mem, v, hole, c, x);
      assert Solo(s, x);
    }
  }

  lemma {:induction false} CopyUndisturbed(s: State, t: State, held: multiset<Addr>)
    requires t.Inv() && t.dying == {} && Unchanged(s.mem, t.mem) && held <= s.held && held <= t.held
    requires forall x | Solo(s, x) && x in t.mem :: t.mem[x].rc == 0
    ensures Undisturbed(s.mem, t.mem, held)
  {
    hide State.Inv, Represents, ValidCtx, IsTarget, Unchanged;
    forall v, tree | Represents(s.mem, v, tree) && (v.Ptr? ==> v.a in held)
      ensures Represents(t.mem, v, tree)
    {
      if v.Ptr? {
        HeldIsNormal(t, v.a);
      }
      RepresentsSurvives(s.mem, t, v, tree);
    }
    forall v, hole, c | ValidCtx(s.mem, v, hole, c) && v.Ptr? && v.a in held
      ensures ValidCtx(t.mem, v, hole, c)
    {
      HeldIsNormal(t, v.a);
      ValidSurvives(s, t, v, hole, c);
    }
    forall a | a in held && a in s.mem && s.mem[a].rc == 0
      ensures a in t.mem && t.mem[a].rc == 0
    {
      HeldIsNormal(t, a);
      assert Solo(s, a);
    }
  }

  /** The next block of the path is `b`; everything before it has been copied. */
  ghost predicate Progress(s0: State, s: State, cres: Box, next: Option<FieldAddr>, pre: Ctx, b: Addr, p: Addr) {
    match next
    case None => s == s0
    case Some(f) =>
      && cres.Ptr? && CopiedPath(s0, s, cres.a, f, pre) && LeadsTo(s.mem, f, Ptr(b))
      && p in s0.mem && Ptr(b) in s0.mem[p].fields && SolosKept(s0, s.mem, Some(b))
  }

  predicate LeadsTo(mem: Mem, f: FieldAddr, v: Box) {
    f.b in mem && f.i < |mem[f.b].fields| && Content(mem, f) == v
  }

  /** Block `b` has been copied to field `next` of the last block of the path. */
  ghost predicate Advanced(s0: State, s: State, cres: Box, next: FieldAddr, pre: Ctx, b: Addr) {
    && cres.Ptr? && CopiedPath(s0, s, cres.a, next, pre)
    && OnPath(s0.mem, b) && next.i == s0.mem[b].idx - 1 && LeadsTo(s.mem, next, Content(s0.mem, PathField(s0.mem, b)))
    && SolosKept(s0, s.mem, Target(s0.mem, b))
  }

  lemma {:induction false} FirstAdvanced(s0: State, t: State, b: Addr, c: Addr, ctx: Ctx)
    requires s0.Inv() && s0.dying == {} && Copied(s0, t, b, c)
    requires ctx.Around? && OnPath(s0.mem, b) && Siblings(s0.mem, b, ctx.tag, ctx.before, ctx.after)
    ensures Advanced(s0, t, Ptr(c), FieldAddr(c, s0.mem[b].idx - 1), OneStep(ctx), b)
  {
    hide State.Inv, Siblings, IsTarget, CopiedPath, SameUpToCounts, BumpedBy;
    FirstCopied(s0, t, b, c, ctx);
    CopyIsCtx(s0, t, b, c, ctx);
    assert SolosKept(s0, s0.mem, None) by {
      assert forall x | Solo(s0, x) :: x in s0.mem && s0.mem[x].rc == 0;
    }
    SolosAfterCopy(s0, s0, t, b, c, None);
  }

  lemma {:induction false} FurtherAdvanced(s0: State, s: State, t: State, w: State, cres: Addr, next: FieldAddr, pre: Ctx, b: Addr, c: Addr, rest: Ctx)
    requires s0.Inv() && s0.dying == {} && CopiedPath(s0, s, cres, next, pre) && Copied(s, t, b, c) && SolosKept(s0, s.mem, Some(b))
    requires rest.Around? && OnPath(s0.mem, b) && Siblings(s0.mem, b, rest.tag, rest.before, rest.after)
    requires next.b in t.mem && next.i < |t.mem[next.b].fields|
    requires w.Inv() && w.dying == {} && w.held == t.held - multiset{c} && w.mem == Relinked(t.mem, next, c, b)
    ensures Advanced(s0, w, Ptr(cres), FieldAddr(c, s0.mem[b].idx - 1), Compose(pre, OneStep(rest)), b)
  {
    hide State.Inv, Siblings, Solo, SolosKept, BumpedBy, UniquePath, Compose, Relinked, IsCtx, PathBlocks;
    RelinkedPath(s0, s, t, w, cres, next, pre, b, c, rest);
    PathLinked(s0, s, t, cres, next, pre, b, c, rest);
    SolosAfterLink(s0, s, t, next, b, c);
  }

  /** Before linking: the field to be relinked, and the parent that keeps `b` alive. */
  lemma {:induction false} ReadyToLink(s0: State, s: State, t: State, cres: Addr, next: FieldAddr, pre: Ctx, b: Addr, c: Addr, p: Addr)
    requires CopiedPath(s0, s, cres, next, pre) && Copied(s, t, b, c) && LeadsTo(s.mem, next, Ptr(b))
    requires p in s0.mem && Ptr(b) in s0.mem[p].fields
    ensures LeadsTo(t.mem, next, Ptr(b)) && |t.mem[next.b].fields| < SCAN_FSIZE_MAX
    ensures p in t.mem && p != next.b && Ptr(b) in t.mem[p].fields && c in t.held
  {
    hide State.Inv, BumpedBy, Siblings;
    HoleOnPath(s.mem, Ptr(cres), next, pre);
  }

  /** Copy the next block of the path; `cres` is the root of the copy. */
  method CopyNext(h: RcHeap, b: Addr, next: Option<FieldAddr>, cres: Box, ghost s0: State, ghost pre: Ctx, ghost rest: Ctx, ghost p: Addr)
    returns (cres': Box, next': FieldAddr, ghost pre': Ctx)
    requires s0.Inv() && s0.dying == {} && Progress(s0, h.S(), cres, next, pre, b, p) && h.S().Inv() && h.dying == {}
    requires rest.Around? && OnPath(s0.mem, b) && Siblings(s0.mem, b, rest.tag, rest.before, rest.after) && OnPath(h.mem, b) && h.mem[b].idx == s0.mem[b].idx
    modifies h
    ensures pre' == if next.None? then OneStep(rest) else Compose(pre, OneStep(rest))
    ensures Advanced(s0, h.S(), cres', next', pre', b)
  {
    hide State.Inv, Siblings, SolosKept, CopiedPath, Copied, Compose, Advanced, Decremented;
    ghost var s := h.S();
    var field := h.mem[b].idx - 1;
    var c := AllocCopy(h, b);
    ghost var t := h.S();
    if next.None? {
      cres', pre' := Ptr(c), OneStep(rest);
      FirstAdvanced(s0, t, b, c, rest);
    } else {
      cres', pre' := cres, Compose(pre, OneStep(rest));
      ReadyToLink(s0, s, t, cres.a, next.value, pre, b, c, p);
      CopiedFacts(s, t, b, c);
      LinkCopy(h, next.value, c, b, p);
      FurtherAdvanced(s0, s, t, h.S(), cres.a, next.value, pre, b, c, rest);
    }
    next' := FieldAddr(c, field);
  }

  lemma CopiedFacts(s: State, t: State, b: Addr, c: Addr)
    requires Copied(s, t, b, c)
    ensures t.Inv() && t.dying == {}
  {
  }

  lemma AdvancedFacts(s0: State, s: State, cres: Box, next: FieldAddr, pre: Ctx, b: Addr)
    requires Advanced(s0, s, cres, next, pre, b)
    ensures s.Inv() && s.dying == {} && cres.Ptr? && s.held == s0.held + multiset{cres.a}
    ensures SameUpToCounts(s0.mem, s.mem) && OnPath(s0.mem, b)
    ensures LeadsTo(s.mem, next, Content(s0.mem, PathField(s0.mem, b))) && next.i == s0.mem[b].idx - 1
  {
  }

  lemma AdvancedProgress(s0: State, s: State, cres: Box, f: FieldAddr, pre: Ctx, b: Addr, x: Addr)
    requires Advanced(s0, s, cres, f, pre, b) && OnPath(s0.mem, b) && Content(s0.mem, PathField(s0.mem, b)) == Ptr(x)
    ensures Progress(s0, s, cres, Some(f), pre, x, b)
  {
    hide CopiedPath, SolosKept;
  }

  /** Releasing only lowers counts. */
  lemma ReleasedSurvivors(s: State, t: State)
    requires s.dying == {} && t.dying == {} && Released(s, t, {})
    ensures Unchanged(s.mem, t.mem) && t.mem.Keys <= s.mem.Keys
    ensures forall x | x in s.mem && x in t.mem && s.mem[x].rc == 0 :: t.mem[x].rc == 0
  {
  }

  lemma {:induction false} SolosAfterDrop(s0: State, s: State, t: State)
    requires SolosKept(s0, s.mem, None) && t.mem.Keys <= s.mem.Keys
    requires forall x | x in s.mem && x in t.mem && s.mem[x].rc == 0 :: t.mem[x].rc == 0
    ensures forall x | Solo(s0, x) && x in t.mem :: t.mem[x].rc == 0
  {
    hide Solo;
  }

  /** Once the hole is reached and the reference to the original is dropped, the copy stands for
      the same context, and nothing changed for the others. */
  lemma {:induction false} CopyFinished(s0: State, s: State, t: State, res: Addr, cres: Addr, b: Addr, hole: FieldAddr, next: FieldAddr, c: Ctx)
    requires s0.Inv() && s0.dying == {} && res in s0.held && Advanced(s0, s, Ptr(cres), next, c, b)
    requires LeadsTo(s0.mem, hole, Content(s0.mem, PathField(s0.mem, b))) && !Content(s0.mem, hole).Ptr?
    requires t.Inv() && t.dying == {} && Released(s, t, {}) && t.held == s.held - multiset{res}
    ensures t.held == s0.held - multiset{res} + multiset{cres}
    ensures ValidCtx(t.mem, Ptr(cres), next, c) && AllUnique(t.mem, Ptr(cres), next, c)
    ensures Undisturbed(s0.mem, t.mem, s0.held - multiset{res})
  {
    hide State.Inv, Solo, IsCtx, PathBlocks, Undisturbed, Released, SolosKept, Unchanged;
    ReleasedSurvivors(s, t);
    SolosAfterDrop(s0, s, t);
    assert t.held == s0.held - multiset{res} + multiset{cres};
    HeldIsNormal(t, cres);
    CtxSurvives(s.mem, t, Ptr(cres), next, c);
    CopyKeepsHole(s, t, Ptr(cres), next, c);
    UnchangedThrough(s0.mem, s.mem, t.mem);
    CopyUndisturbed(s0, t, s0.held - multiset{res});
  }

  lemma UnchangedThrough(m0: Mem, m: Mem, m': Mem)
    requires SameUpToCounts(m0, m) && Unchanged(m, m')
    ensures Unchanged(m0, m')
  {
  }

  lemma {:induction false} CopyKeepsHole(s: State, t: State, v: Box, hole: FieldAddr, c: Ctx)
    requires IsCtx(s.mem, v, hole, c) && IsCtx(t.mem, v, hole, c) && Unchanged(s.mem, t.mem)
    ensures hole.b in t.mem && hole.i < |t.mem[hole.b].fields| && hole.b in s.mem && t.mem[hole.b].fields == s.mem[hole.b].fields
  {
    hide IsCtx, PathBlocks;
    HoleOnPath(s.mem, v, hole, c);
    HoleOnPath(t.mem, v, hole, c);
  }

  /** Copy the path of the context `res`; the copy is unique, and takes over the reference to `res`. */
  method CctxCopy(h: RcHeap, res: Box, hole: FieldAddr, ghost c: Ctx) returns (cres: Box, newHole: FieldAddr)
    requires h.S().Inv() && h.dying == {} && ValidCtx(h.mem, res, hole, c)
    requires res.Ptr? && res.a in h.held && h.mem[res.a].rc != 0
    modifies h
    ensures h.S().Inv() && h.dying == {}
    ensures cres.Ptr? && h.held == old(h.held) - multiset{res.a} + multiset{cres.a}
    ensures ValidCtx(h.mem, cres, newHole, c) && AllUnique(h.mem, cres, newHole, c)
    ensures Undisturbed(old(h.mem), h.mem, old(h.held) - multiset{res.a})
  {
    hide State.Inv, Siblings, SolosKept, CopiedPath, Advanced, PathBlocks, Compose, Undisturbed, SameUpToCounts, Released;
    ghost var s0 := h.S();
    cres := Null;
    var next: Option<FieldAddr> := None;
    var cur := res;
    ghost var pre, rest, p := Hole, c, res.a;
    while true
      invariant cur.Ptr? && IsCtx(s0.mem, cur, hole, rest) && OnPath(h.mem, cur.a) && h.mem[cur.a].idx == s0.mem[cur.a].idx
      invariant h.S().Inv() && h.dying == {} && Progress(s0, h.S(), cres, next, pre, cur.a, p)
      invariant c == if next.None? then rest else Compose(pre, rest)
      decreases rest
    {
      var b := cur.a;
      var f: FieldAddr;
      MoveStep(pre, rest);
      cres, f, pre := CopyNext(h, b, next, cres, s0, pre, rest, p);
      AdvancedFacts(s0, h.S(), cres, f, pre, b);
      assert Compose(pre, rest.inner) == c;
      next := Some(f);
      rest := rest.inner;
      p := b;
      if FieldAddr(b, f.i) == hole {
        break;
      }
      cur := Content(h.mem, f);
      SameIndex(s0.mem, h.mem, cur.a);
      AdvancedProgress(s0, h.S(), cres, f, pre, b, cur.a);
    }
    ghost var s := h.S();
    newHole := next.value;
    HoleIsUnit(pre);
    DropOne(h, res.a);
    CopyFinished(s0, s, h.S(), res.a, cres.a, p, hole, newHole, c);
  }

  lemma SameIndex(m: Mem, m': Mem, a: Addr)
    requires SameUpToCounts(m, m') && OnPath(m, a)
    ensures OnPath(m', a) && m'[a].idx == m[a].idx
  {
  }

  // ------- applying a context -------

  /** A context value: the root and the address of the hole; the empty context has neither. */
  datatype Cctx = Cctx(res: Box, hole: Option<FieldAddr>)

  const EMPTY := Cctx(Null, None)

  predicate Denotes(mem: Mem, acc: Cctx, c: Ctx) {
    match acc.hole
    case None => acc == EMPTY && c == Hole
    case Some(f) => acc.res.Ptr? && ValidCtx(mem, acc.res, f, c)
  }

  /** `r` is `child` put into the hole of `c`, whether `child` is a tree or another, unique, context. */
  ghost predicate Plugged(m: Mem, m': Mem, c: Ctx, child: Box, r: Box) {
    && (forall t | Represents(m, child, t) :: Represents(m', r, Plug(c, t)))
    && (forall hole, d | child.Ptr? && child.a in m && m[child.a].rc == 0 && ValidCtx(m, child, hole, d) ::
          ValidCtx(m', r, hole, Compose(c, d)))
  }

  lemma {:induction false} FillsTree(s: State, res: Box, hole: FieldAddr, c: Ctx, child: Box, t: Tree)
    requires s.Inv() && s.dying == {} && IsCtx(s.mem, res, hole, c) && AllUnique(s.mem, res, hole, c)
    requires res.a in s.held && (child.Ptr? ==> child.a in s.held - multiset{res.a})
    requires Represents(s.mem, child, t)
    ensures hole.b in s.mem && hole.i < |s.mem[hole.b].fields|
    ensures Represents(Written(s.mem, hole, child), res, Plug(c, t))
  {
    hide State.Inv, IsCtx, PathBlocks, Plug;
    UniquePathIsIsolated(s, res, hole, c);
    HoleOnPath(s.mem, res, hole, c);
    FilledTree(s.mem, PathBlocks(s.mem, res, hole, c), res, hole, c, child, t);
  }

  lemma {:induction false} FillsCtx(s: State, res: Box, hole: FieldAddr, c: Ctx, child: Box, hole': FieldAddr, d: Ctx)
    requires s.Inv() && s.dying == {} && IsCtx(s.mem, res, hole, c) && AllUnique(s.mem, res, hole, c)
    requires res.a in s.held && child.Ptr? && child.a in s.held - multiset{res.a}
    requires ValidCtx(s.mem, child, hole', d) && child.a in s.mem && s.mem[child.a].rc == 0
    ensures hole.b in s.mem && hole.i < |s.mem[hole.b].fields|
    ensures ValidCtx(Written(s.mem, hole, child), res, hole', Compose(c, d))
  {
    hide State.Inv, IsCtx, PathBlocks, Compose;
    var p := PathBlocks(s.mem, res, hole, c);
    UniquePathIsIsolated(s, res, hole, c);
    HoleOnPath(s.mem, res, hole, c);
    HoleOnPath(s.mem, child, hole', d);
    OutsideCtx(s.mem, Written(s.mem, hole, child), p, child, hole', d);
    FilledCtx(s.mem, p, res, hole, c, child, hole', d);
  }

  lemma {:induction false} FillUndisturbed(s: State, res: Box, hole: FieldAddr, c: Ctx, child: Box)
    requires s.Inv() && s.dying == {} && IsCtx(s.mem, res, hole, c) && AllUnique(s.mem, res, hole, c)
    requires res.Ptr? && res.a in s.held
    ensures hole.b in s.mem && hole.i < |s.mem[hole.b].fields|
    ensures Undisturbed(s.mem, Written(s.mem, hole, child), s.held - multiset{res.a})
  {
    hide State.Inv, IsCtx, PathBlocks, Represents;
    var p := PathBlocks(s.mem, res, hole, c);
    UniquePathIsIsolated(s, res, hole, c);
    HoleOnPath(s.mem, res, hole, c);
    var held, m' := s.held - multiset{res.a}, Written(s.mem, hole, child);
    forall v, tree | Represents(s.mem, v, tree) && (v.Ptr? ==> v.a in held)
      ensures Represents(m', v, tree)
    {
      OutsideRepresents(s.mem, m', p, v, tree);
    }
    forall v, hole', d | ValidCtx(s.mem, v, hole', d) && v.Ptr? && v.a in held
      ensures ValidCtx(m', v, hole', d)
    {
      OutsideCtx(s.mem, m', p, v, hole', d);
      HoleOnPath(s.mem, v, hole', d);
    }
  }

  /** Write `child` into the hole of a unique context. */
  method Fill(h: RcHeap, res: Box, hole: FieldAddr, child: Box, ghost c: Ctx)
    requires h.S().Inv() && h.dying == {} && ValidCtx(h.mem, res, hole, c) && AllUnique(h.mem, res, hole, c)
    requires res.Ptr? && Ref(res) + Ref(child) <= h.held
    modifies h
    ensures h.S().Inv() && h.dying == {} && h.held == old(h.held) - Ref(child)
    ensures Plugged(old(h.mem), h.mem, c, child, res)
    ensures Undisturbed(old(h.mem), h.mem, old(h.held) - Ref(res))
    ensures res.a in h.mem && h.mem[res.a].rc == 0
  {
    hide State.Inv, IsCtx, PathBlocks, Plug, Compose, Undisturbed, Represents;
    ghost var s := h.S();
    HoleOnPath(s.mem, res, hole, c);
    RootOnPath(s.mem, res, hole, c);
    Store(h, hole.b, hole.i, child);
    assert h.mem == Written(s.mem, hole, child);
    forall t | Represents(s.mem, child, t)
      ensures Represents(h.mem, res, Plug(c, t))
    {
      FillsTree(s, res, hole, c, child, t);
    }
    forall hole', d | child.Ptr? && child.a in s.mem && s.mem[child.a].rc == 0 && ValidCtx(s.mem, child, hole', d)
      ensures ValidCtx(h.mem, res, hole', Compose(c, d))
    {
      FillsCtx(s, res, hole, c, child, hole', d);
    }
    FillUndisturbed(s, res, hole, c, child);
  }

  lemma RootOnPath(mem: Mem, v: Box, hole: FieldAddr, c: Ctx)
    requires IsCtx(mem, v, hole, c)
    ensures v.a in PathBlocks(mem, v, hole, c)
  {
  }

  lemma UndisturbedTwice(m0: Mem, m1: Mem, m2: Mem, held1: multiset<Addr>, held2: multiset<Addr>, held: multiset<Addr>)
    requires Undisturbed(m0, m1, held1) && Undisturbed(m1, m2, held2) && held <= held1 && held <= held2
    ensures Undisturbed(m0, m2, held)
  {
    hide Represents, ValidCtx;
  }

  lemma UndisturbedFewer(m: Mem, m': Mem, more: multiset<Addr>, held: multiset<Addr>)
    requires Undisturbed(m, m', more) && held <= more
    ensures Undisturbed(m, m', held)
  {
    hide Represents, ValidCtx;
  }

  lemma PluggedAfter(m0: Mem, m1: Mem, m2: Mem, held: multiset<Addr>, c: Ctx, child: Box, r: Box)
    requires Undisturbed(m0, m1, held) && Plugged(m1, m2, c, child, r) && (child.Ptr? ==> child.a in held)
    ensures Plugged(m0, m2, c, child, r)
  {
    hide Represents, ValidCtx, Plug, Compose;
  }

  /** Fill the hole of a copy of the shared context `res`. */
  method CctxCopyApply(h: RcHeap, res: Box, hole: FieldAddr, child: Box, ghost c: Ctx) returns (cres: Box)
    requires h.S().Inv() && h.dying == {} && ValidCtx(h.mem, res, hole, c)
    requires res.Ptr? && res.a in h.held && h.mem[res.a].rc != 0 && Ref(res) + Ref(child) <= h.held
    modifies h
    ensures h.S().Inv() && h.dying == {}
    ensures cres.Ptr? && h.held == old(h.held) - Ref(res) - Ref(child) + Ref(cres)
    ensures Plugged(old(h.mem), h.mem, c, child, cres)
    ensures Undisturbed(old(h.mem), h.mem, old(h.held) - Ref(res) - Ref(child))
    ensures cres.a in h.mem && h.mem[cres.a].rc == 0
  {
    hide State.Inv, IsCtx, ValidCtx, AllUnique, PathBlocks, Undisturbed, Plugged, Ref;
    ghost var m0, held := h.mem, h.held;
    var newHole;
    cres, newHole := CctxCopy(h, res, hole, c);
    ghost var m1 := h.mem;
    SingleRef(res);
    SingleRef(cres);
    Passed(held, Ref(child), Ref(res), Ref(cres));
    RefHeld(child, held - Ref(res));
    Fill(h, cres, newHole, child, c);
    PluggedAfter(m0, m1, h.mem, held - Ref(res), c, child, cres);
    UndisturbedTwice(m0, m1, h.mem, held - Ref(res), held - Ref(res), held - Ref(child) - Ref(res));
  }

  lemma SingleRef(v: Box)
    requires v.Ptr?
    ensures Ref(v) == multiset{v.a}
  {
  }

  lemma RefHeld(v: Box, held: multiset<Addr>)
    requires Ref(v) <= held
    ensures v.Ptr? ==> v.a in held
  {
    assert v.Ptr? ==> v.a in Ref(v);
  }

  lemma {:induction false} NothingDisturbed(m: Mem, child: Box, held: multiset<Addr>)
    ensures Undisturbed(m, m, held) && Plugged(m, m, Hole, child, child)
  {
  }

  /** Put `child` into the hole of a context, in place if the context is unique. */
  method CctxApply(h: RcHeap, acc: Cctx, child: Box, ghost c: Ctx) returns (r: Box)
    requires h.S().Inv() && h.dying == {} && Denotes(h.mem, acc, c) && Ref(acc.res) + Ref(child) <= h.held
    modifies h
    ensures h.S().Inv() && h.dying == {} && h.held == old(h.held) - Ref(acc.res) - Ref(child) + Ref(r)
    ensures Plugged(old(h.mem), h.mem, c, child, r)
    ensures Undisturbed(old(h.mem), h.mem, old(h.held) - Ref(acc.res) - Ref(child))
    ensures acc != EMPTY ==> r.Ptr? && r.a in h.mem && h.mem[r.a].rc == 0
  {
    hide State.Inv, IsCtx, PathBlocks, Undisturbed, Plugged;
    if acc.hole.None? {
      NothingDisturbed(h.mem, child, h.held - Ref(acc.res) - Ref(child));
      return child;
    }
    HeldIsNormal(h.S(), acc.res.a);
    if h.mem[acc.res.a].rc == 0 {
      ghost var m, held := h.mem, h.held;
      Fill(h, acc.res, acc.hole.value, child, c);
      UndisturbedFewer(m, h.mem, held - Ref(acc.res), held - Ref(acc.res) - Ref(child));
      r := acc.res;
    } else {
      r := CctxCopyApply(h, acc.res, acc.hole.value, child, c);
    }
  }

  /** Extend a context by a unique context `child` with hole `field`. */
  method CctxExtend(h: RcHeap, acc: Cctx, child: Box, field: FieldAddr, ghost c: Ctx, ghost d: Ctx) returns (acc': Cctx)
    requires h.S().Inv() && h.dying == {} && Denotes(h.mem, acc, c) && Ref(acc.res) + Ref(child) <= h.held
    requires Denotes(h.mem, Cctx(child, Some(field)), d) && child.a in h.mem && h.mem[child.a].rc == 0
    modifies h
    ensures h.S().Inv() && h.dying == {} && h.held == old(h.held) - Ref(acc.res) - Ref(child) + Ref(acc'.res)
    ensures Denotes(h.mem, acc', Compose(c, d))
    ensures Undisturbed(old(h.mem), h.mem, old(h.held) - Ref(acc.res) - Ref(child))
  {
    hide State.Inv, Undisturbed, ValidCtx;
    var r := CctxApply(h, acc, child, c);
    assert ValidCtx(h.mem, r, field, Compose(c, d));
    if acc == EMPTY {
      ValidRoot(h.mem, r, field, Compose(c, d));
    }
    acc' := Cctx(r, Some(field));
  }

  lemma ValidRoot(m: Mem, v: Box, hole: FieldAddr, c: Ctx)
    requires ValidCtx(m, v, hole, c)
    ensures v.Ptr? && v.a in m
  {
  }

  /** Compose two contexts; the second is copied first if it is shared. */
  method CctxCompose(h: RcHeap, acc1: Cctx, acc2: Cctx, ghost c1: Ctx, ghost c2: Ctx) returns (acc: Cctx)
    requires h.S().Inv() && h.dying == {} && Denotes(h.mem, acc1, c1) && Denotes(h.mem, acc2, c2)
    requires Ref(acc1.res) + Ref(acc2.res) <= h.held
    modifies h
    ensures h.S().Inv() && h.dying == {} && h.held == old(h.held) - Ref(acc1.res) - Ref(acc2.res) + Ref(acc.res)
    ensures Denotes(h.mem, acc, Compose(c1, c2))
    ensures Undisturbed(old(h.mem), h.mem, old(h.held) - Ref(acc1.res) - Ref(acc2.res))
  {
    hide State.Inv, Undisturbed, ValidCtx;
    if acc2.hole.None? {
      HoleIsUnit(c1);
      NothingDisturbed(h.mem, Null, h.held - Ref(acc1.res) - Ref(acc2.res));
      return acc1;
    }
    ValidRoot(h.mem, acc2.res, acc2.hole.value, c2);
    if h.mem[acc2.res.a].rc == 0 {
      acc := CctxExtend(h, acc1, acc2.res, acc2.hole.value, c1, c2);
    } else {
      acc := CctxComposeShared(h, acc1, acc2, c1, c2);
    }
  }

  method CctxComposeShared(h: RcHeap, acc1: Cctx, acc2: Cctx, ghost c1: Ctx, ghost c2: Ctx) returns (acc: Cctx)
    requires h.S().Inv() && h.dying == {} && Denotes(h.mem, acc1, c1) && Denotes(h.mem, acc2, c2) && acc2 != EMPTY
    requires Ref(acc1.res) + Ref(acc2.res) <= h.held && acc2.res.a in h.mem && h.mem[acc2.res.a].rc != 0
    modifies h
    ensures h.S().Inv() && h.dying == {} && h.held == old(h.held) - Ref(acc1.res) - Ref(acc2.res) + Ref(acc.res)
    ensures Denotes(h.mem, acc, Compose(c1, c2))
    ensures Undisturbed(old(h.mem), h.mem, old(h.held) - Ref(acc1.res) - Ref(acc2.res))
  {
    hide State.Inv, Undisturbed, ValidCtx, AllUnique;
    ghost var m0, held := h.mem, h.held;
    var res, hole := CctxCopy(h, acc2.res, acc2.hole.value, c2);
    ghost var m1, held1 := h.mem, h.held;
    StillDenotes(m0, m1, held - Ref(acc2.res), acc1, c1);
    UniqueRoot(m1, res, hole, c2);
    Passed(held, Ref(acc1.res), Ref(acc2.res), Ref(res));
    acc := CctxExtend(h, acc1, res, hole, c1, c2);
    UndisturbedTwice(m0, m1, h.mem, held - Ref(acc2.res), held1 - Ref(acc1.res) - Ref(res), held - Ref(acc1.res) - Ref(acc2.res));
  }

  /** The reference `b` was exchanged for `x`, and `a` is still there. */
  lemma Passed(held: multiset<Addr>, a: multiset<Addr>, b: multiset<Addr>, x: multiset<Addr>)
    requires a + b <= held
    ensures a + x <= held - b + x && x + a <= held - b + x && a <= held - b && held - b + x - x == held - b
    ensures held - b + x - a - x == held - a - b && held - b + x - a == held - b - a + x && held - a - b == held - b - a
    ensures held - a - b <= held - b
  {
  }

  lemma UniqueRoot(m: Mem, v: Box, hole: FieldAddr, c: Ctx)
    requires ValidCtx(m, v, hole, c) && AllUnique(m, v, hole, c)
    ensures v.Ptr? && v.a in m && m[v.a].rc == 0
  {
    RootOnPath(m, v, hole, c);
  }

  lemma StillDenotes(m: Mem, m': Mem, held: multiset<Addr>, acc: Cctx, c: Ctx)
    requires Undisturbed(m, m', held) && Denotes(m, acc, c) && Ref(acc.res) <= held
    ensures Denotes(m', acc, c)
  {
    hide ValidCtx;
    assert acc.res.Ptr? ==> acc.res.a in Ref(acc.res);
  }
}
