/** Dropping references: the fast paths of dup and drop, and the stackless recursive free that
    keeps its stack of parents in field 0 of the dying blocks. */
module StacklessFree {
  import opened Options
  import opened Heap

  datatype Label = MoveDown | ScanFields | MoveUp | Done

  /** The dying block `b` still owns its fields from `i` on. */
  ghost predicate Partial(s: State, b: Addr, i: nat) {
    b in s.dying && b in s.mem && b in s.own && i <= |s.mem[b].fields| && s.own[b] == s.mem[b].fields[i..]
  }

  ghost predicate Whole(s: State, b: Addr) {
    Partial(s, b, 0)
  }

  // ------- releasing one field -------

  /** Field `i` of `b` was released; `child` is a block that must be freed next because of it. */
  ghost predicate FieldReleased(s: State, t: State, b: Addr, i: nat, child: Option<Addr>) {
    && Released(s, t, {b})
    && t.held == s.held
    && b in s.mem && b in t.mem && t.mem[b] == s.mem[b] && Partial(t, b, i + 1)
    && (child.Some? ==> child.value !in s.dying && Whole(t, child.value))
    && t.dying == s.dying + child.ToSet()
  }

  lemma ValueFieldReleased(s: State, b: Addr, i: nat)
    requires s.Inv() && Partial(s, b, i) && i < |s.mem[b].fields| && !s.mem[b].fields[i].Ptr?
    ensures TakeField(s, b).Inv() && TakeField(s, b).Work() == s.Work() - 1
    ensures FieldReleased(s, TakeField(s, b), b, i, None)
  {
    hide State.Work, Released;
    TakeFieldKeepsInv(s, b);
    TakeFieldReleases(s, b);
    TakeFieldWork(s, b);
  }

  lemma PointerFieldSteps(s: State, b: Addr, a: Addr)
    requires s.Inv() && b in s.dying && s.own[b] != [] && s.own[b][0] == Ptr(a)
    ensures TakeField(s, b).Inv() && a in TakeField(s, b).held
    ensures a in s.mem && a !in s.dying && a in s.own && s.own[a] == s.mem[a].fields
    ensures GiveUp(TakeField(s, b), a).Inv() && GiveUp(TakeField(s, b), a).Work() == s.Work() - 1
    ensures Released(s, GiveUp(TakeField(s, b), a), {b})
  {
    hide State.Work, Released;
    var t := TakeField(s, b);
    TakeFieldKeepsInv(s, b);
    TakeFieldReleases(s, b);
    TakeFieldWork(s, b);
    GiveUpKeepsInv(t, a);
    GiveUpReleases(t, a);
    GiveUpWork(t, a);
    ReleasedTransitive(s, t, GiveUp(t, a), {b}, {});
  }

  lemma PointerFieldReleased(s: State, b: Addr, i: nat, a: Addr)
    requires s.Inv() && Partial(s, b, i) && i < |s.mem[b].fields| && s.mem[b].fields[i] == Ptr(a)
    ensures TakeField(s, b).Inv() && a in TakeField(s, b).held && a in s.mem
    ensures var u := GiveUp(TakeField(s, b), a);
      && u.Inv() && u.Work() == s.Work() - 1
      && FieldReleased(s, u, b, i, if LastReference(s.mem[a].rc) then Some(a) else None)
  {
    hide State.Inv, State.Work, Released, Decremented, LastReference;
    PointerFieldSteps(s, b, a);
    assert b != a;
    assert TakeField(s, b).held - multiset{a} == s.held;
  }

  /** Freeing the child that a field led to is part of releasing that field. */
  lemma FieldReleasedThenFreed(s: State, t: State, u: State, b: Addr, i: nat, c: Addr, next: Option<Addr>)
    requires FieldReleased(s, t, b, i, Some(c)) && FreedTo(t, u, c, next)
    requires b in s.dying
    ensures FieldReleased(s, u, b, i, next)
  {
    ReleasedTransitive(s, t, u, {b}, {c});
    assert SameAt(t, u, b);
  }

  lemma FieldsReleased(s: State, t: State, u: State, b: Addr, i: nat, child: Option<Addr>)
    requires FieldReleased(s, t, b, i, None) && FieldReleased(t, u, b, i + 1, child)
    ensures FieldReleased(s, u, b, i + 1, child)
  {
    hide Released;
    ReleasedTransitive(s, t, u, {b}, {b});
  }

  // ------- freeing a block -------

  /** The dying block `b` is gone, except that `next` has taken its place. */
  ghost predicate FreedTo(s: State, t: State, b: Addr, next: Option<Addr>) {
    && Released(s, t, {b})
    && t.held == s.held
    && (next.Some? ==> next.value !in s.dying - {b} && Whole(t, next.value))
    && t.dying == s.dying - {b} + next.ToSet()
  }

  lemma FreedToItself(s: State, b: Addr)
    requires s.Inv() && Whole(s, b)
    ensures FreedTo(s, s, b, Some(b))
  {
  }

  lemma FreedToTransitive(s: State, t: State, u: State, b: Addr, c: Addr, next: Option<Addr>)
    requires FreedTo(s, t, b, Some(c)) && FreedTo(t, u, c, next)
    ensures FreedTo(s, u, b, next)
  {
    hide Released;
    ReleasedTransitive(s, t, u, {b}, {c});
  }

  /** When the last field is released, freeing the block leaves only the child. */
  lemma FreedAfterLastField(s: State, t: State, b: Addr, i: nat, child: Option<Addr>)
    requires b in s.dying && t.Inv()
    requires FieldReleased(s, t, b, i, child) && b in t.mem && i + 1 == |t.mem[b].fields|
    ensures FreedTo(s, Freed(t, b), b, child)
  {
    hide Released, State.Inv;
    FreeReleases(t, b);
    ReleasedTransitive(s, t, Freed(t, b), {b}, {b});
    var u := Freed(t, b);
    assert u.dying == s.dying - {b} + child.ToSet();
    if child.Some? {
      assert child.value != b && Whole(u, child.value);
    }
  }

  lemma LeafFreed(s: State, b: Addr)
    requires s.Inv() && Whole(s, b)
    ensures FreedTo(s, Freed(s, b), b, None)
  {
    hide Released, State.Inv;
    FreeReleases(s, b);
  }

  // ------- the parent chain -------

  /** `stack` is the parent chain, innermost last: each block on it still owns the fields from
      its saved index on, and its field 0 links to the next outer one. */
  ghost predicate ParentChain(s: State, stack: seq<Addr>, parent: Option<Addr>) {
    && (forall k | 0 <= k < |stack| :: OnChain(s, stack[k], Above(stack, k)))
    && (forall j, k | 0 <= j < k < |stack| :: stack[j] != stack[k])
    && parent == Above(stack, |stack|)
  }

  ghost predicate OnChain(s: State, b: Addr, up: Option<Addr>) {
    && b in s.dying && b in s.mem
    && 0 < s.mem[b].idx < |s.mem[b].fields| < SCAN_FSIZE_MAX
    && Partial(s, b, s.mem[b].idx)
    && s.mem[b].fields[0] == Link(up)
  }

  /** In the middle of freeing `b0`: the chain `stack` and the current block are what remains of it. */
  ghost predicate Descending(s0: State, s: State, b0: Addr, stack: seq<Addr>, parent: Option<Addr>, cur: Option<Addr>) {
    && Released(s0, s, {b0})
    && s.held == s0.held
    && ParentChain(s, stack, parent)
    && (forall k | 0 <= k < |stack| :: stack[k] !in s0.dying - {b0})
    && (cur.Some? ==> cur.value !in stack && cur.value !in s0.dying - {b0})
    && (forall x :: x in s.dying <==> (x in s0.dying && x != b0) || x in stack || cur == Some(x))
  }

  /** Saving the progress in `b`: its field 0 becomes the link to the parent. */
  ghost function Pushed(s: State, b: Addr, i: nat, parent: Option<Addr>): State
    requires b in s.mem && 0 < |s.mem[b].fields|
  {
    s.(mem := s.mem[b := s.mem[b].(fields := s.mem[b].fields[0 := Link(parent)], idx := i)])
  }

  lemma PushKeepsInv(s: State, b: Addr, i: nat, parent: Option<Addr>)
    requires s.Inv() && Partial(s, b, i) && 0 < i < |s.mem[b].fields| < SCAN_FSIZE_MAX
    ensures Pushed(s, b, i, parent).Inv()
    ensures OnChain(Pushed(s, b, i, parent), b, parent)
  {
    hide State.Work, Boxes, Counts;
    var t := Pushed(s, b, i, parent);
    assert t.mem[b].fields[i..] == s.mem[b].fields[i..];
    forall a ensures t.Refs(a) == s.Refs(a) {}
  }

  lemma PushReleases(s0: State, s: State, b0: Addr, b: Addr, i: nat, parent: Option<Addr>)
    requires Released(s0, s, {b0}) && b in s.mem && 0 < |s.mem[b].fields| && b in s.dying && b !in s0.dying - {b0}
    ensures Released(s0, Pushed(s, b, i, parent), {b0})
    ensures Pushed(s, b, i, parent).Work() == s.Work()
  {
    hide Boxes;
    assert forall a | a in s.dying && a != b :: SameAt(s, s, a) ==> SameAt(s, Pushed(s, b, i, parent), a);
  }

  lemma StartDescending(s0: State, b0: Addr)
    requires s0.Inv() && Whole(s0, b0)
    ensures Descending(s0, s0, b0, [], None, Some(b0))
  {
  }

  lemma FinishDescending(s0: State, s: State, b0: Addr, stack: seq<Addr>)
    requires Descending(s0, s, b0, stack, None, None)
    ensures FreedTo(s0, s, b0, None)
  {
    assert stack == [] by {
      assert Above(stack, |stack|) == None;
    }
    assert s.dying == s0.dying - {b0} + {};
  }

  lemma ChainTop(s: State, b: Addr, up: Option<Addr>)
    requires OnChain(s, b, up)
    ensures b in s.mem && s.mem[b].fields != [] && s.mem[b].fields[0] == Link(up)
    ensures Partial(s, b, s.mem[b].idx) && s.mem[b].idx < |s.mem[b].fields| < SCAN_FSIZE_MAX
  {
  }

  lemma LargeShape(s: State, b: Addr)
    requires s.Inv() && b in s.mem && |s.mem[b].fields| >= SCAN_FSIZE_MAX
    ensures s.mem[b].fields[0] == Val(|s.mem[b].fields|)
  {
    assert Shape(s.mem[b]);
  }

  lemma Push(s0: State, s: State, t: State, b0: Addr, stack: seq<Addr>, parent: Option<Addr>, b: Addr, i: nat, c: Addr)
    requires Descending(s0, s, b0, stack, parent, Some(b)) && b in s.dying
    requires FieldReleased(s, t, b, i, Some(c)) && t.Inv() && i + 1 < |t.mem[b].fields| < SCAN_FSIZE_MAX
    ensures Pushed(t, b, i + 1, parent).Inv() && Pushed(t, b, i + 1, parent).Work() == t.Work()
    ensures Descending(s0, Pushed(t, b, i + 1, parent), b0, stack + [b], Some(b), Some(c))
    ensures Whole(Pushed(t, b, i + 1, parent), c)
  {
    hide Released, State.Inv, State.Work, ParentChain, OnChain;
    var u := Pushed(t, b, i + 1, parent);
    PushKeepsInv(t, b, i + 1, parent);
    ReleasedTransitive(s0, s, t, {b0}, {b});
    PushReleases(s0, t, b0, b, i + 1, parent);
    ChainKept(s, t, stack, parent, b);
    ChainPushed(t, u, stack, parent, b, i + 1);
    assert b != c;
    ChainMembers(s, stack, parent);
  }

  lemma ChainMembers(s: State, stack: seq<Addr>, parent: Option<Addr>)
    requires ParentChain(s, stack, parent)
    ensures forall x | x in stack :: x in s.dying
  {
    forall k | 0 <= k < |stack|
      ensures stack[k] in s.dying
    {
      assert OnChain(s, stack[k], Above(stack, k));
    }
  }

  lemma ChainPushed(t: State, u: State, stack: seq<Addr>, parent: Option<Addr>, b: Addr, i: nat)
    requires ParentChain(t, stack, parent) && b !in stack && b in t.mem && |t.mem[b].fields| > 0
    requires u == Pushed(t, b, i, parent) && OnChain(u, b, parent)
    ensures ParentChain(u, stack + [b], Some(b))
  {
    hide OnChain;
    var all := stack + [b];
    forall k | 0 <= k < |all|
      ensures OnChain(u, all[k], Above(all, k))
    {
      assert Above(all, k) == if k < |stack| then Above(stack, k) else parent;
      if k < |stack| {
        assert OnChain(t, stack[k], Above(stack, k)) && stack[k] != b;
        StaysOnChain(t, u, stack[k], Above(stack, k), b, i, parent);
      }
    }
    assert Above(all, |all|) == Some(b);
  }

  lemma StaysOnChain(t: State, u: State, c: Addr, up: Option<Addr>, b: Addr, i: nat, parent: Option<Addr>)
    requires OnChain(t, c, up) && c != b && b in t.mem && |t.mem[b].fields| > 0 && u == Pushed(t, b, i, parent)
    ensures OnChain(u, c, up)
  {
  }

  lemma ChainKept(s: State, t: State, stack: seq<Addr>, parent: Option<Addr>, b: Addr)
    requires ParentChain(s, stack, parent) && b !in stack && Released(s, t, {b})
    ensures ParentChain(t, stack, parent)
  {
    forall k | 0 <= k < |stack|
      ensures OnChain(t, stack[k], Above(stack, k))
    {
      assert OnChain(s, stack[k], Above(stack, k)) && stack[k] != b;
      assert SameAt(s, t, stack[k]);
    }
  }

  lemma FieldDone(s0: State, s: State, t: State, b0: Addr, stack: seq<Addr>, parent: Option<Addr>, b: Addr, i: nat)
    requires Descending(s0, s, b0, stack, parent, Some(b)) && FieldReleased(s, t, b, i, None)
    ensures Descending(s0, t, b0, stack, parent, Some(b))
  {
    hide Released, ParentChain;
    ReleasedTransitive(s0, s, t, {b0}, {b});
    ChainKept(s, t, stack, parent, b);
  }

  lemma BlockDone(s0: State, s: State, t: State, b0: Addr, stack: seq<Addr>, parent: Option<Addr>, b: Addr, next: Option<Addr>)
    requires Descending(s0, s, b0, stack, parent, Some(b)) && FreedTo(s, t, b, next)
    ensures Descending(s0, t, b0, stack, parent, next)
  {
    hide Released, ParentChain;
    ReleasedTransitive(s0, s, t, {b0}, {b});
    ChainKept(s, t, stack, parent, b);
  }

  /** Moving up: the link in field 0 of the innermost parent is the rest of the chain. */
  lemma Pop(s0: State, s: State, b0: Addr, stack: seq<Addr>, b: Addr)
    requires Descending(s0, s, b0, stack, Some(b), None)
    ensures stack != [] && b == stack[|stack| - 1] && OnChain(s, b, Above(stack, |stack| - 1))
    ensures Descending(s0, s, b0, stack[..|stack| - 1], Above(stack, |stack| - 1), Some(b))
  {
    hide Released, OnChain, ParentChain;
    ChainPopped(s, stack, b);
    assert stack == stack[..|stack| - 1] + [b];
  }

  lemma ChainPopped(s: State, stack: seq<Addr>, b: Addr)
    requires ParentChain(s, stack, Some(b))
    ensures stack != [] && b == stack[|stack| - 1] && OnChain(s, b, Above(stack, |stack| - 1))
    ensures ParentChain(s, stack[..|stack| - 1], Above(stack, |stack| - 1))
    ensures b !in stack[..|stack| - 1]
  {
    hide OnChain, ParentChain;
    ChainInnermost(s, stack, b);
    assert Above(stack, |stack|) == Some(b);
    ChainRest(s, stack, |stack| - 1);
  }

  lemma ChainInnermost(s: State, stack: seq<Addr>, b: Addr)
    requires ParentChain(s, stack, Some(b))
    ensures stack != [] && b == stack[|stack| - 1] && OnChain(s, b, Above(stack, |stack| - 1)) && b !in stack[..|stack| - 1]
  {
    hide OnChain;
    assert Above(stack, |stack|) == Some(b);
  }

  lemma ChainRest(s: State, stack: seq<Addr>, n: nat)
    requires n <= |stack| && ParentChain(s, stack, Above(stack, |stack|))
    ensures ParentChain(s, stack[..n], Above(stack, n))
  {
    hide OnChain;
    var rest := stack[..n];
    forall k | 0 <= k < n
      ensures OnChain(s, rest[k], Above(rest, k))
    {
      assert OnChain(s, stack[k], Above(stack, k));
      assert Above(rest, k) == Above(stack, k);
    }
    assert Above(rest, n) == Above(stack, n);
  }

  // ------- dropping a reference -------

  ghost predicate Dropped(s: State, t: State, b: Addr) {
    && t.Inv() && t.dying == {} && t.held == s.held - multiset{b} && Released(s, t, {})
    && b in s.mem && (if LastReference(s.mem[b].rc) then b !in t.mem else t == GiveUp(s, b))
  }

  lemma NowWhole(s: State, b: Addr)
    requires s.Inv() && b in s.held && s.dying == {}
    ensures b in s.mem
    ensures LastReference(s.mem[b].rc) ==> Whole(GiveUp(s, b), b) && GiveUp(s, b).dying == {b}
    ensures !LastReference(s.mem[b].rc) ==> GiveUp(s, b).dying == {}
  {
    HeldIsNormal(s, b);
  }

  lemma DropFinished(s: State, t: State, u: State, b: Addr)
    requires s.Inv() && b in s.held && b in s.mem && s.dying == {} && t == GiveUp(s, b) && u.Inv()
    requires if LastReference(s.mem[b].rc) then FreedTo(t, u, b, None) else t == u
    ensures Dropped(s, u, b)
  {
    hide State.Inv, Released;
    GiveUpReleases(s, b);
    if LastReference(s.mem[b].rc) {
      FreedIsGone(t, u, b);
    }
    if t != u {
      ReleasedTransitive(s, t, u, {}, {b});
    }
  }

  lemma FreedIsGone(s: State, t: State, b: Addr)
    requires FreedTo(s, t, b, None) && b in s.dying
    ensures b !in t.mem
  {
  }

  lemma ExactAgain(s: State, t: State, b: Addr)
    requires Dropped(s, t, b) && s.dying == {}
    ensures Exact(t.mem, t.held) && t.own == FieldsOf(t.mem)
    ensures forall a | a in t.mem :: a in s.mem && t.mem[a] == s.mem[a].(rc := t.mem[a].rc)
  {
    assert t.own == FieldsOf(t.mem);
    assert t == State(t.mem, FieldsOf(t.mem), {}, t.held);
  }

  lemma InRange(s: State, b: Addr)
    requires s.Inv() && b in s.mem
    ensures RC_STUCK <= s.mem[b].rc <= INT32_MAX
  {
    assert Shape(s.mem[b]);
  }

  lemma FreedToOwner(s: State, t: State, b: Addr, c: Addr)
    requires FreedTo(s, t, b, Some(c))
    ensures Whole(t, c)
  {
  }

  class RcHeap {
    var mem: Mem
    ghost var own: map<Addr, seq<Box>>
    ghost var dying: set<Addr>
    ghost var held: multiset<Addr>

    ghost function S(): State
      reads this
    {
      State(mem, own, dying, held)
    }

    /** The allocator's free: afterwards the address is no longer accessible. */
    method Free(b: Addr)
      requires S().Inv() && b in dying && (forall x | x in own[b] :: !x.Ptr?)
      modifies this
      ensures S() == Freed(old(S()), b)
      ensures S().Inv() && S().Work() < old(S()).Work()
    {
      hide State.Work;
      FreeKeepsInv(S(), b);
      FreeWork(S(), b);
      mem := mem - {b};
      own := own - {b};
      dying := dying - {b};
    }

    /** Decrement the count of `a`, giving up one held reference, without freeing. */
    method DecrefNoFree(a: Addr) returns (last: bool)
      requires S().Inv() && a in held
      modifies this
      ensures a in old(mem) && S() == GiveUp(old(S()), a)
      ensures last <==> LastReference(old(mem)[a].rc)
    {
      hide State.Inv;
      HeldIsNormal(S(), a);
      var b := mem[a];
      if b.rc == 0 {
        last := true;
      } else if b.rc < 0 {
        if b.rc <= RC_STICKY_DROP {
          last := false;
        } else {
          // the atomic increment of a thread-shared count
          last := b.rc == RC_SHARED_UNIQUE;
          b := b.(rc := b.rc + 1);
          if last {
            b := b.(rc := 0);
          }
        }
      } else {
        b := b.(rc := b.rc - 1);
        last := false;
      }
      mem := mem[a := b];
      held := held - multiset{a};
      if last {
        dying := dying + {a};
      }
    }

    /** Release field `i` of the dying block `b`; returns the child if that was its last reference. */
    method FastFieldShouldFree(b: Addr, i: nat) returns (child: Option<Addr>)
      requires S().Inv() && Partial(S(), b, i) && i < |mem[b].fields|
      modifies this
      ensures FieldReleased(old(S()), S(), b, i, child)
      ensures S().Inv() && S().Work() == old(S()).Work() - 1
    {
      hide State.Inv, State.Work, FieldReleased, LastReference;
      ghost var t := TakeField(S(), b);
      var v := mem[b].fields[i];
      child := None;
      if v.Ptr? {
        PointerFieldReleased(S(), b, i, v.a);
        own, held := t.own, t.held;
        assert S() == t;
        var last := DecrefNoFree(v.a);
        if last {
          child := Some(v.a);
        }
      } else {
        ValueFieldReleased(S(), b, i);
        own, held := t.own, t.held;
        assert S() == t;
      }
    }

    /** Free `b` on the fast path as far as that goes; returns the block where it stopped. */
    method FastDropFree(b0: Addr) returns (next: Option<Addr>)
      requires S().Inv() && Whole(S(), b0)
      modifies this
      ensures S().Inv() && FreedTo(old(S()), S(), b0, next) && S().Work() <= old(S()).Work()
      ensures next.Some? ==> next.value in mem && |mem[next.value].fields| >= 2
    {
      hide State.Inv, State.Work, FreedTo, FieldReleased;
      ghost var s := S();
      var b := b0;
      FreedToItself(s, b);
      while true
        invariant S().Inv() && Whole(S(), b) && FreedTo(s, S(), b0, Some(b)) && S().Work() <= s.Work()
        decreases S().Work()
      {
        ghost var before := S();
        var child: Option<Addr> := None;
        if |mem[b].fields| == 0 {
          LeafFreed(before, b);
          Free(b);
        } else if |mem[b].fields| == 1 {
          child := FastFieldShouldFree(b, 0);
          FieldOwner(before, S(), b, 0, child);
          FreedAfterLastField(before, S(), b, 0, child);
          Free(b);
        } else if |mem[b].fields| == 2 && !mem[b].fields[0].Ptr? {
          SkipValueField(b);
          ghost var between := S();
          FieldOwner(before, between, b, 0, None);
          child := FastFieldShouldFree(b, 1);
          FieldsReleased(before, between, S(), b, 0, child);
          FieldOwner(before, S(), b, 1, child);
          FreedAfterLastField(before, S(), b, 1, child);
          Free(b);
        } else {
          return Some(b);
        }
        FreedToTransitive(s, before, S(), b0, b, child);
        if child.None? {
          return None;
        }
        b := child.value;
      }
    }

    /** As `FastFieldShouldFree`, but the child is freed as far as the fast path goes. */
    method FieldShouldFree(b: Addr, i: nat) returns (child: Option<Addr>)
      requires S().Inv() && Partial(S(), b, i) && i < |mem[b].fields|
      modifies this
      ensures FieldReleased(old(S()), S(), b, i, child)
      ensures S().Inv() && S().Work() < old(S()).Work()
      ensures child.Some? ==> child.value in mem && |mem[child.value].fields| >= 2
    {
      hide State.Inv, State.Work, FieldReleased, FreedTo;
      ghost var s := S();
      child := FastFieldShouldFree(b, i);
      if child.Some? {
        ghost var t := S();
        var c := child.value;
        FieldOwner(s, t, b, i, child);
        child := FastDropFree(c);
        FieldReleasedThenFreed(s, t, S(), b, i, c, child);
      }
    }

    /** Thread the parent through field 0 of `b` and remember the next field to scan. */
    method SaveProgress(b: Addr, i: nat, parent: Option<Addr>)
      requires b in mem && |mem[b].fields| > 0
      modifies `mem
      ensures S() == Pushed(old(S()), b, i, parent)
    {
      mem := mem[b := mem[b].(fields := mem[b].fields[0 := Link(parent)])];
      mem := mem[b := mem[b].(idx := i)];
    }

    /** Free a block of `SCAN_FSIZE_MAX` fields or more, recursing for each child. */
    method DropFreeLargeRec(b: Addr)
      requires S().Inv() && Whole(S(), b) && |mem[b].fields| >= SCAN_FSIZE_MAX && mem[b].fields[0] == Val(|mem[b].fields|)
      modifies this
      ensures S().Inv() && FreedTo(old(S()), S(), b, None) && S().Work() < old(S()).Work()
      decreases S().Work(), 0
    {
      hide State.Inv, State.Work, FreedTo, FieldReleased;
      ghost var s := S();
      var scanFsize := mem[b].fields[0].n;
      SkipValueField(b);
      FieldOwner(s, S(), b, 0, None);
      var i := 1;
      while i < scanFsize
        invariant 1 <= i <= scanFsize
        invariant S().Inv() && FieldReleased(s, S(), b, i - 1, None) && S().Work() < s.Work()
        invariant b in mem && mem[b] == s.mem[b] && Partial(S(), b, i)
      {
        ghost var t := S();
        var child := FieldShouldFree(b, i);
        FieldOwner(t, S(), b, i, child);
        if child.Some? {
          ghost var u := S();
          DropFreeRecx(child.value);
          FieldReleasedThenFreed(t, u, S(), b, i, child.value, None);
          FieldOwner(t, S(), b, i, None);
        }
        FieldsReleased(s, t, S(), b, i - 1, None);
        i := i + 1;
      }
      FreedAfterLastField(s, S(), b, i - 1, None);
      Free(b);
    }

    /** The blocks that are freed without threading the parent chain through them: one field,
        an unboxed field before the last one, or a large block. */
    method FreeUnscanned(b: Addr) returns (child: Option<Addr>)
      requires S().Inv() && Whole(S(), b)
      requires |mem[b].fields| == 1 || (|mem[b].fields| == 2 && !mem[b].fields[0].Ptr?) || |mem[b].fields| >= SCAN_FSIZE_MAX
      modifies this
      ensures S().Inv() && FreedTo(old(S()), S(), b, child) && S().Work() < old(S()).Work()
      ensures child.Some? ==> Whole(S(), child.value) && |mem[child.value].fields| > 0
      decreases S().Work(), 1
    {
      hide State.Inv, State.Work, FreedTo, FieldReleased;
      ghost var s := S();
      if |mem[b].fields| == 1 {
        child := FieldShouldFree(b, 0);
        FieldOwner(s, S(), b, 0, child);
        FreedAfterLastField(s, S(), b, 0, child);
        Free(b);
      } else if |mem[b].fields| == 2 && !mem[b].fields[0].Ptr? {
        SkipValueField(b);
        ghost var between := S();
        FieldOwner(s, between, b, 0, None);
        child := FieldShouldFree(b, 1);
        FieldsReleased(s, between, S(), b, 0, child);
        FieldOwner(s, S(), b, 1, child);
        FreedAfterLastField(s, S(), b, 1, child);
        Free(b);
      } else {
        LargeShape(S(), b);
        DropFreeLargeRec(b);
        child := None;
      }
    }

    /** Free the dying block `b0` and everything that dies with it, without using the call stack
        (except for blocks of `SCAN_FSIZE_MAX` fields or more). */
    method DropFreeRecx(b0: Addr)
      requires S().Inv() && Whole(S(), b0) && |mem[b0].fields| > 0
      modifies this
      ensures S().Inv() && FreedTo(old(S()), S(), b0, None) && S().Work() < old(S()).Work()
      decreases S().Work(), 2
    {
      hide State.Inv, State.Work, FreedTo, FieldReleased, Descending, OnChain;
      ghost var s0 := S();
      var b := b0;
      var parent: Option<Addr> := None;
      var i: nat := 0;
      ghost var stack: seq<Addr> := [];
      var label' := MoveDown;
      StartDescending(s0, b0);
      while label' != Done
        invariant S().Inv() && S().Work() <= s0.Work()
        invariant Descending(s0, S(), b0, stack, parent, if label'.MoveDown? || label'.ScanFields? then Some(b) else None)
        invariant label'.MoveDown? ==> Whole(S(), b) && |mem[b].fields| > 0
        invariant label'.ScanFields? ==> Partial(S(), b, i) && i < |mem[b].fields| < SCAN_FSIZE_MAX
        invariant label'.MoveUp? || label'.Done? ==> S().Work() < s0.Work()
        invariant label'.Done? ==> parent == None
        decreases S().Work(), if label'.Done? then 0 else if label'.ScanFields? then 1 else 2
      {
        ghost var s := S();
        match label' {
          case MoveDown =>
            if |mem[b].fields| == 1 || (|mem[b].fields| == 2 && !mem[b].fields[0].Ptr?) || |mem[b].fields| >= SCAN_FSIZE_MAX {
              var child := FreeUnscanned(b);
              BlockDone(s0, s, S(), b0, stack, parent, b, child);
              if child.Some? {
                b := child.value;
              } else {
                label' := MoveUp;
              }
            } else {
              i := 0;
              label' := ScanFields;
            }

          case ScanFields =>
            var child := FieldShouldFree(b, i);
            FieldOwner(s, S(), b, i, child);
            i := i + 1;
            if child.Some? {
              if i < |mem[b].fields| {
                Push(s0, s, S(), b0, stack, parent, b, i - 1, child.value);
                SaveProgress(b, i, parent);
                stack := stack + [b];
                parent := Some(b);
              } else {
                FreedAfterLastField(s, S(), b, i - 1, child);
                Free(b);
                BlockDone(s0, s, S(), b0, stack, parent, b, child);
              }
              b := child.value;
              label' := MoveDown;
            } else if i < |mem[b].fields| {
              FieldDone(s0, s, S(), b0, stack, parent, b, i - 1);
            } else {
              FreedAfterLastField(s, S(), b, i - 1, None);
              Free(b);
              BlockDone(s0, s, S(), b0, stack, parent, b, None);
              label' := MoveUp;
            }

          case MoveUp =>
            if parent.Some? {
              Pop(s0, s, b0, stack, parent.value);
              ChainTop(s, parent.value, Above(stack, |stack| - 1));
              b := parent.value;
              var up := mem[b].fields[0];
              parent := if up.Ptr? then Some(up.a) else None;
              stack := stack[..|stack| - 1];
              i := mem[b].idx;
              label' := ScanFields;
            } else {
              label' := Done;
            }
        }
      }
      FinishDescending(s0, S(), b0, stack);
    }

    method DropFree(b: Addr)
      requires S().Inv() && Whole(S(), b)
      modifies this
      ensures S().Inv() && FreedTo(old(S()), S(), b, None)
    {
      hide State.Inv, State.Work, FreedTo;
      ghost var s := S();
      var next := FastDropFree(b);
      if next.Some? {
        ghost var t := S();
        FreedToOwner(s, t, b, next.value);
        DropFreeRecx(next.value);
        FreedToTransitive(s, t, S(), b, next.value, None);
      }
    }

    /** The slow path of drop: the block is unique, thread-shared or sticky. */
    method CheckDrop(b: Addr, rc0: int)
      requires S().Inv() && dying == {} && b in held && b in mem && rc0 == mem[b].rc <= 0
      modifies this
      ensures Dropped(old(S()), S(), b)
    {
      hide State.Inv, State.Work, FreedTo;
      ghost var s := S();
      GiveUpKeepsInv(s, b);
      ghost var t := GiveUp(s, b);
      NowWhole(s, b);
      if rc0 == 0 {
        held, dying := held - multiset{b}, {b};
        assert mem == mem[b := mem[b]];
        assert S() == t;
        DropFree(b);
      } else if rc0 <= RC_STICKY_DROP {
        held := held - multiset{b};
        assert mem == mem[b := mem[b]];
        assert S() == t;
      } else {
        mem := mem[b := mem[b].(rc := rc0 + 1)];  // the atomic increment
        held := held - multiset{b};
        if rc0 == RC_SHARED_UNIQUE {
          mem := mem[b := mem[b].(rc := 0)];
          dying := {b};
          assert S() == t;
          DropFree(b);
        } else {
          assert S() == t;
        }
      }
      DropFinished(s, t, S(), b);
    }

    /** Drop one reference to `b`. */
    method Drop(b: Addr)
      requires Exact(mem, held) && b in held
      requires own == FieldsOf(mem) && dying == {}
      modifies this
      ensures Exact(mem, held) && held == old(held) - multiset{b}
      ensures own == FieldsOf(mem) && dying == {}
      // survivors are intact, up to their counts
      ensures forall a | a in mem :: a in old(mem) && mem[a] == old(mem)[a].(rc := mem[a].rc)
      // nothing reachable is freed, and on an acyclic heap everything else is
      ensures forall a | Reachable(old(mem), held, a) :: a in mem
      ensures Acyclic(old(mem)) ==> forall a :: a in mem <==> Reachable(old(mem), held, a)
      ensures Released(old(S()), S(), {})
      ensures b in old(mem) && (!LastReference(old(mem)[b].rc) ==> S() == GiveUp(old(S()), b))
      // what happens to the block itself
      ensures old(mem)[b].rc == 0 || old(mem)[b].rc == -1 ==> b !in mem
      ensures old(mem)[b].rc > 0 ==> b in mem && mem[b].rc == old(mem)[b].rc - 1
      ensures -0x6000_0000 < old(mem)[b].rc < -1 ==> b in mem && mem[b].rc == old(mem)[b].rc + 1
      ensures old(mem)[b].rc <= -0x6000_0000 ==> mem == old(mem)
    {
      hide State.Inv, State.Work, Reachable, Acyclic;
      ghost var s := S();
      HeldIsNormal(s, b);
      var rc := mem[b].rc;
      InRange(s, b);
      OnlyLowCountsStick(rc, s.Refs(b));
      if rc <= 0 {
        CheckDrop(b, rc);
      } else {
        GiveUpKeepsInv(s, b);
        mem := mem[b := mem[b].(rc := rc - 1)];
        held := held - multiset{b};
        assert S() == GiveUp(s, b);
        DropFinished(s, S(), S(), b);
      }
      ExactAgain(s, S(), b);
      forall a | Reachable(s.mem, held, a)
        ensures a in mem
      {
        ReachableSurvives(s, S(), a);
      }
      if Acyclic(s.mem) {
        SurvivorsAreTheReachable(s, S());
      }
    }

    /** An unboxed field owns nothing; nothing is done for it. */
    ghost method SkipValueField(b: Addr)
      requires S().Inv() && Whole(S(), b) && |mem[b].fields| > 0 && !mem[b].fields[0].Ptr?
      modifies `own
      ensures FieldReleased(old(S()), S(), b, 0, None)
      ensures S().Inv() && S().Work() == old(S()).Work() - 1
    {
      hide State.Inv, State.Work, FieldReleased;
      ValueFieldReleased(S(), b, 0);
      own := TakeField(S(), b).own;
    }
  }

  lemma FieldOwner(s: State, t: State, b: Addr, i: nat, child: Option<Addr>)
    requires FieldReleased(s, t, b, i, child)
    ensures b in s.mem && b in t.mem && t.mem[b] == s.mem[b] && Partial(t, b, i + 1)
    ensures child.Some? ==> Whole(t, child.value)
  {
  }
}
