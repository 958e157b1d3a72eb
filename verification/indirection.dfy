/** Compressing a chain of indirections left behind by lazy evaluation: the unique ones are freed,
    the others are made to point directly at the value at the end. */
module Indirection {
  import opened Options
  import opened Heap
  import opened StacklessFree
  import opened HeapOps

  predicate IsIndirection(mem: Mem, v: Box, tag: nat) {
    v.Ptr? && v.a in mem && mem[v.a].tag == tag
  }

  /** Where the walk along the chain is after `i` steps. */
  function Cursor(chain: seq<Addr>, val: Box, i: nat): Box {
    if i < |chain| then Ptr(chain[i]) else val
  }

  /** `chain` are the indirections from its first block to the value `val`. */
  predicate IsChain(mem: Mem, tag: nat, chain: seq<Addr>, val: Box) {
    && chain != []
    && (forall i | 0 <= i < |chain| :: chain[i] in mem && mem[chain[i]].tag == tag && mem[chain[i]].fields == [Cursor(chain, val, i + 1)])
    && !IsIndirection(mem, val, tag)
  }

  lemma {:induction false} Repeats(mem: Mem, tag: nat, chain: seq<Addr>, val: Box, i: nat, j: nat, k: nat)
    requires IsChain(mem, tag, chain, val) && i < j && j + k < |chain| && chain[i] == chain[j]
    ensures chain[i + k] == chain[j + k]
  {
    if k > 0 {
      Repeats(mem, tag, chain, val, i, j, k - 1);
      assert mem[chain[i + k - 1]].fields == [Cursor(chain, val, i + k)];
      assert mem[chain[j + k - 1]].fields == [Cursor(chain, val, j + k)];
    }
  }

  /** A chain that ends never visits a block twice. */
  lemma {:induction false} ChainDistinct(mem: Mem, tag: nat, chain: seq<Addr>, val: Box)
    requires IsChain(mem, tag, chain, val)
    ensures forall i, j | 0 <= i < j < |chain| :: chain[i] != chain[j]
  {
    forall i, j | 0 <= i < j < |chain|
      ensures chain[i] != chain[j]
    {
      if chain[i] == chain[j] {
        var k := |chain| - 1 - j;
        Repeats(mem, tag, chain, val, i, j, k);
        NotTheEnd(mem, tag, chain, val, i + k);
      }
    }
  }

  /** Only the last indirection leads to the value. */
  lemma {:induction false} NotTheEnd(mem: Mem, tag: nat, chain: seq<Addr>, val: Box, i: nat)
    requires IsChain(mem, tag, chain, val) && i < |chain| - 1
    ensures chain[i] != chain[|chain| - 1]
  {
    var v := mem[chain[i]].fields[0];
    assert v == Cursor(chain, val, i + 1) && IsIndirection(mem, v, tag);
    assert mem[chain[|chain| - 1]].fields == [Cursor(chain, val, |chain|)];
  }

  /** Without cycles there is a chain from every indirection, however the path `p` led to it. */
  lemma {:induction false} ChainFrom(mem: Mem, tag: nat, p: seq<Addr>) returns (chain: seq<Addr>, val: Box)
    requires Acyclic(mem) && (forall a | a in mem && mem[a].tag == tag :: |mem[a].fields| == 1)
    requires Path(mem, p) && mem[p[|p| - 1]].tag == tag
    ensures IsChain(mem, tag, chain, val) && chain[0] == p[|p| - 1]
    decreases |mem| - |p|
  {
    hide Acyclic;
    var b := p[|p| - 1];
    chain, val := [b], mem[b].fields[0];
    if IsIndirection(mem, val, tag) {
      var q := p + [val.a];
      PathAppend(mem, p, val.a);
      AcyclicPathIsShort(mem, q);
      var rest, end := ChainFrom(mem, tag, q);
      chain, val := [b] + rest, end;
    }
  }

  /** So compression applies to every indirection of an acyclic heap. */
  lemma {:induction false} ChainExists(mem: Mem, tag: nat, root: Addr)
    requires Acyclic(mem) && (forall a | a in mem && mem[a].tag == tag :: |mem[a].fields| == 1)
    requires root in mem && mem[root].tag == tag
    ensures exists chain, val :: IsChain(mem, tag, chain, val) && chain[0] == root
  {
    var chain, val := ChainFrom(mem, tag, [root]);
  }

  // ------- giving up a reference without releasing the fields -------

  /** Block `b` is freed, and the reference in its only field is now held. */
  ghost function FreedShallow(s: State, b: Addr): State
    requires b in s.mem && |s.mem[b].fields| == 1
  {
    State(s.mem - {b}, s.own - {b}, s.dying, s.held - multiset{b} + Ref(s.mem[b].fields[0]))
  }

  lemma {:induction false} FreeShallowKeepsRefs(s: State, b: Addr)
    requires s.Inv() && s.dying == {} && b in s.held && b in s.mem && |s.mem[b].fields| == 1 && LastReference(s.mem[b].rc)
    ensures forall a :: FreedShallow(s, b).Refs(a) == if a == b then 0 else s.Refs(a)
  {
    hide Counts, Shape, LastReference, Boxes;
    CountsAfterLast(s, b);
    BoxesRemove(s.own, b);
    assert s.own[b] == [s.mem[b].fields[0]];
    assert s.own == FreedShallow(s, b).own[b := s.own[b]];
    Moved(s.held, Boxes(s.own), Boxes(s.own - {b}), s.mem[b].fields[0], b);
  }

  /** The box `v` moves from the fields to the held references. */
  lemma Moved(held: multiset<Addr>, p: multiset<Box>, q: multiset<Box>, v: Box, b: Addr)
    requires b in held && held[b] + p[Ptr(b)] == 1 && p == multiset{v} + q
    ensures forall a :: (held - multiset{b} + Ref(v))[a] + q[Ptr(a)] == if a == b then 0 else held[a] + p[Ptr(a)]
  {
  }

  lemma {:induction false} FreeShallowKeepsInv(s: State, b: Addr)
    requires s.Inv() && s.dying == {} && b in s.held && b in s.mem && |s.mem[b].fields| == 1 && LastReference(s.mem[b].rc)
    ensures FreedShallow(s, b).Inv()
  {
    hide State.Refs, Counts, Shape, LastReference;
    FreeShallowKeepsRefs(s, b);
  }

  lemma CountsAfterLast(s: State, b: Addr)
    requires s.Inv() && s.dying == {} && b in s.held && b in s.mem && LastReference(s.mem[b].rc)
    ensures s.Refs(b) == 1
  {
    assert Counts(s.mem[b].rc, s.Refs(b));
  }

  /** What giving up a reference to `b` without releasing its fields does. */
  ghost function Decreffed(s: State, b: Addr): State
    requires b in s.mem && |s.mem[b].fields| == 1
  {
    if LastReference(s.mem[b].rc) then FreedShallow(s, b) else GiveUp(s, b)
  }

  method Decref(h: RcHeap, b: Addr)
    requires h.S().Inv() && h.dying == {} && b in h.held && b in h.mem && |h.mem[b].fields| == 1
    modifies h
    ensures h.S() == Decreffed(old(h.S()), b) && h.S().Inv() && h.dying == {}
  {
    hide State.Inv;
    ghost var s := h.S();
    var last := h.DecrefNoFree(b);
    if last {
      FreeShallowKeepsInv(s, b);
      ghost var t := FreedShallow(s, b);
      h.mem := h.mem - {b};
      assert h.mem == t.mem;
      h.own, h.dying, h.held := t.own, t.dying, t.held;
    } else {
      GiveUpKeepsInv(s, b);
    }
  }

  /** After the decrement a shared indirection is still there to be overwritten, unless its count
      was that of a thread-shared block with a single reference. */
  lemma StillThere(s: State, b: Addr)
    requires b in s.mem && |s.mem[b].fields| == 1 && s.mem[b].rc != 0
    ensures b in Decreffed(s, b).mem <==> s.mem[b].rc != RC_SHARED_UNIQUE
  {
  }

  /** Such a count does occur: a thread-shared indirection whose only reference is ours. */
  lemma {:induction false} FreedBeforeTheUpdate()
    ensures var s := State(map[0 := Block([Val(7)], RC_SHARED_UNIQUE, 0, 1)], map[0 := [Val(7)]], {}, multiset{0});
      s.Inv() && IsChain(s.mem, 1, [0], Val(7)) && 0 !in Decreffed(s, 0).mem
  {
    var s := State(map[0 := Block([Val(7)], RC_SHARED_UNIQUE, 0, 1)], map[0 := [Val(7)]], {}, multiset{0});
    BoxesRemove(s.own, 0);
    assert s.own - {0} == map[];
    assert Boxes(s.own) == multiset{Val(7)};
  }

  // ------- the walk -------

  /** How many of the first `i` indirections are shared. */
  function Shared(mem: Mem, chain: seq<Addr>, i: nat): nat
    requires i <= |chain|
  {
    if i == 0 then 0 else Shared(mem, chain, i - 1) + if chain[i - 1] in mem && mem[chain[i - 1]].rc == 0 then 0 else 1
  }

  function Lookup(m: Mem, a: Addr): Option<Block> {
    if a in m then Some(m[a]) else None
  }

  /** What has become of address `a` when the first `i` indirections have been freed or updated. */
  function After(m: Mem, chain: seq<Addr>, val: Box, i: nat, a: Addr): Option<Block>
    requires i <= |chain|
  {
    if a !in m then None
    else if a in chain[..i] then
      if m[a].rc == 0 then None else Some(m[a].(fields := [val], rc := Decremented(m[a].rc)))
    else if val == Ptr(a) then Some(m[a].(rc := Bumped(m[a].rc, Shared(m, chain, i))))
    else Some(m[a])
  }

  /** The heap after `i` steps; our reference is now to where the walk is. */
  ghost predicate Walked(s: State, t: State, chain: seq<Addr>, val: Box, i: nat)
    requires i <= |chain|
  {
    && t.Inv() && t.dying == {}
    && t.held == s.held - Ref(Cursor(chain, val, 0)) + Ref(Cursor(chain, val, i))
    && forall a :: Lookup(t.mem, a) == After(s.mem, chain, val, i, a)
  }

  /** The block that the walk has reached is still as it was. */
  lemma {:induction false} Untouched(s: State, t: State, tag: nat, chain: seq<Addr>, val: Box, i: nat)
    requires IsChain(s.mem, tag, chain, val) && i < |chain| && Walked(s, t, chain, val, i) && chain[0] in s.held
    ensures chain[i] in s.mem && chain[i] in t.mem && t.mem[chain[i]] == s.mem[chain[i]] && chain[i] in t.held
  {
    hide State.Inv, Bumped, Decremented, IsChain;
    NotYet(s.mem, tag, chain, val, i);
    assert Lookup(t.mem, chain[i]) == After(s.mem, chain, val, i, chain[i]);
  }

  lemma {:induction false} NotYet(m: Mem, tag: nat, chain: seq<Addr>, val: Box, i: nat)
    requires IsChain(m, tag, chain, val) && i < |chain|
    ensures chain[i] in m && chain[i] !in chain[..i] && val != Ptr(chain[i]) && chain[..i + 1] == chain[..i] + [chain[i]]
  {
    ChainDistinct(m, tag, chain, val);
  }

  /** The value at the end is not part of the chain, and its tag never changes. */
  lemma {:induction false} ValueKept(s: State, t: State, tag: nat, chain: seq<Addr>, val: Box, i: nat)
    requires IsChain(s.mem, tag, chain, val) && i <= |chain| && Walked(s, t, chain, val, i) && val.Ptr? && val.a in s.mem
    ensures val.a in t.mem && t.mem[val.a].tag == s.mem[val.a].tag != tag && val.a !in chain
  {
    hide State.Inv, Bumped, Decremented;
    assert forall k | 0 <= k < |chain| :: s.mem[chain[k]].tag == tag;
    assert Lookup(t.mem, val.a) == After(s.mem, chain, val, i, val.a);
  }

  lemma {:induction false} MemAfterFree(m0: Mem, m: Mem, tag: nat, chain: seq<Addr>, val: Box, i: nat, a: Addr)
    requires IsChain(m0, tag, chain, val) && i < |chain| && chain[i] in m0 && m0[chain[i]].rc == 0
    requires Lookup(m, a) == After(m0, chain, val, i, a)
    ensures Lookup(m - {chain[i]}, a) == After(m0, chain, val, i + 1, a)
  {
    hide Bumped, Decremented, IsChain;
    NotYet(m0, tag, chain, val, i);
    assert Shared(m0, chain, i + 1) == Shared(m0, chain, i);
  }

  lemma {:induction false} WalkFrees(s: State, t: State, u: State, tag: nat, chain: seq<Addr>, val: Box, i: nat)
    requires IsChain(s.mem, tag, chain, val) && i < |chain| && Walked(s, t, chain, val, i) && chain[0] in s.held
    requires chain[i] in s.mem && s.mem[chain[i]].rc == 0
    requires u.Inv() && u.dying == {} && u.held == t.held - multiset{chain[i]} + Ref(Cursor(chain, val, i + 1))
    requires u.mem == t.mem - {chain[i]}
    ensures Walked(s, u, chain, val, i + 1)
  {
    hide State.Inv, Lookup, After, IsChain;
    NotYet(s.mem, tag, chain, val, i);
    forall a ensures Lookup(u.mem, a) == After(s.mem, chain, val, i + 1, a) {
      assert Lookup(t.mem, a) == After(s.mem, chain, val, i, a);
      MemAfterFree(s.mem, t.mem, tag, chain, val, i, a);
    }
    assert u.held == s.held - Ref(Cursor(chain, val, 0)) + Ref(Cursor(chain, val, i + 1));
  }

  /** The heap after a shared indirection `b` has been updated. */
  function Updated(m: Mem, b: Addr, val: Box): Mem
    requires b in m && (val.Ptr? ==> val.a in m)
  {
    var m1 := m[b := m[b].(fields := [val], rc := Decremented(m[b].rc))];
    if val.Ptr? then m1[val.a := m1[val.a].(rc := Incremented(m1[val.a].rc))] else m1
  }

  lemma {:induction false} MemAfterUpdate(m0: Mem, m: Mem, tag: nat, chain: seq<Addr>, val: Box, i: nat, a: Addr)
    requires IsChain(m0, tag, chain, val) && i < |chain| && chain[i] in m0 && m0[chain[i]].rc != 0
    requires Lookup(m, a) == After(m0, chain, val, i, a)
    requires chain[i] in m && m[chain[i]] == m0[chain[i]] && (val.Ptr? ==> val.a in m && val.a in m0 && val.a !in chain)
    ensures Lookup(Updated(m, chain[i], val), a) == After(m0, chain, val, i + 1, a)
  {
    hide Incremented, Decremented, IsChain;
    NotYet(m0, tag, chain, val, i);
    assert Shared(m0, chain, i + 1) == Shared(m0, chain, i) + 1;
    assert a in m0 ==> Bumped(m0[a].rc, Shared(m0, chain, i + 1)) == Incremented(Bumped(m0[a].rc, Shared(m0, chain, i)));
    assert forall x | x in chain[..i] :: x in chain;
  }

  lemma {:induction false} WalkUpdates(s: State, t: State, u: State, tag: nat, chain: seq<Addr>, val: Box, i: nat)
    requires IsChain(s.mem, tag, chain, val) && i < |chain| && Walked(s, t, chain, val, i) && chain[0] in s.held
    requires s.mem[chain[i]].rc != 0 && (val.Ptr? ==> val.a in s.mem)
    requires u.Inv() && u.dying == {} && u.held == t.held - multiset{chain[i]} + Ref(Cursor(chain, val, i + 1))
    requires chain[i] in t.mem && (val.Ptr? ==> val.a in t.mem) && u.mem == Updated(t.mem, chain[i], val)
    ensures Walked(s, u, chain, val, i + 1)
  {
    hide State.Inv, Lookup, After, IsChain, Updated;
    Untouched(s, t, tag, chain, val, i);
    if val.Ptr? {
      ValueKept(s, t, tag, chain, val, i);
    }
    forall a ensures Lookup(u.mem, a) == After(s.mem, chain, val, i + 1, a) {
      assert Lookup(t.mem, a) == After(s.mem, chain, val, i, a);
      MemAfterUpdate(s.mem, t.mem, tag, chain, val, i, a);
    }
    assert u.held == s.held - Ref(Cursor(chain, val, 0)) + Ref(Cursor(chain, val, i + 1));
  }

  lemma {:induction false} ValueAlive(s: State, tag: nat, chain: seq<Addr>, val: Box)
    requires s.Inv() && s.dying == {} && IsChain(s.mem, tag, chain, val)
    ensures val.Ptr? ==> val.a in s.mem
  {
    if val.Ptr? {
      var b := chain[|chain| - 1];
      assert s.mem[b].fields == [Cursor(chain, val, |chain|)] && val in s.mem[b].fields;
      BoxesMember(s.own, b, val);
      assert s.Refs(val.a) > 0;
    }
  }

  /** Make the shared indirection `b` point to `val`, while moving on to what it pointed to. */
  method Redirect(h: RcHeap, b: Addr, val: Box)
    requires h.S().Inv() && h.dying == {} && b in h.held && b in h.mem && |h.mem[b].fields| == 1 && !LastReference(h.mem[b].rc)
    requires val.Ptr? ==> val.a in h.mem && val.a != b
    modifies h
    ensures h.S().Inv() && h.dying == {}
    ensures b in old(h.mem) && h.held == old(h.held) - multiset{b} + Ref(old(h.mem)[b].fields[0])
    ensures (val.Ptr? ==> val.a in old(h.mem)) && h.mem == Updated(old(h.mem), b, val)
  {
    hide State.Inv, LastReference, Decremented, Incremented, Boxes, State.Refs, Updated;
    ghost var m, held := h.mem, h.held;
    Decref(h, b);
    ghost var m1 := h.mem;
    ghost var m2 := WithDup(m1, val);
    DupValue(h, val);
    Store(h, b, 0, val);
    UpdatedInSteps(m, m1, m2, h.mem, b, val);
    HeldInSteps(held, b, val, m[b].fields[0]);
  }

  method DupValue(h: RcHeap, val: Box)
    requires h.S().Inv() && h.dying == {} && (val.Ptr? ==> val.a in h.mem)
    modifies h
    ensures h.S().Inv() && h.dying == {} && h.held == old(h.held) + Ref(val)
    ensures (val.Ptr? ==> val.a in old(h.mem)) && h.mem == WithDup(old(h.mem), val)
  {
    hide State.Inv, Incremented;
    if val.Ptr? {
      Dup(h, val.a);
    }
  }

  lemma HeldInSteps(held: multiset<Addr>, b: Addr, val: Box, next: Box)
    ensures held - multiset{b} + Ref(val) - Ref(val) + Ref(next) == held - multiset{b} + Ref(next)
  {
  }

  lemma UpdatedInSteps(m: Mem, m1: Mem, m2: Mem, m3: Mem, b: Addr, val: Box)
    requires b in m && |m[b].fields| == 1 && (val.Ptr? ==> val.a in m && val.a != b)
    requires m1 == m[b := m[b].(rc := Decremented(m[b].rc))] && m2 == WithDup(m1, val)
    requires m3 == m2[b := m2[b].(fields := m2[b].fields[0 := val])]
    ensures m3 == Updated(m, b, val)
  {
    hide Decremented, Incremented;
    assert m2[b].fields[0 := val] == [val];
  }

  method FreeUnique(h: RcHeap, b: Addr)
    requires h.S().Inv() && h.dying == {} && b in h.held && b in h.mem && |h.mem[b].fields| == 1 && h.mem[b].rc == 0
    modifies h
    ensures h.S() == FreedShallow(old(h.S()), b) && h.S().Inv()
  {
    hide State.Inv;
    FreeShallowKeepsInv(h.S(), b);
    ghost var t := FreedShallow(h.S(), b);
    h.mem := h.mem - {b};
    h.own, h.held := t.own, t.held;
  }

  lemma NothingWalked(s: State, tag: nat, chain: seq<Addr>, val: Box)
    requires s.Inv() && s.dying == {} && IsChain(s.mem, tag, chain, val) && chain[0] in s.held
    ensures Walked(s, s, chain, val, 0)
  {
    hide State.Inv;
    assert s.held == s.held - multiset{chain[0]} + multiset{chain[0]};
  }

  lemma WalkedFacts(s: State, t: State, chain: seq<Addr>, val: Box, i: nat)
    requires i <= |chain| && Walked(s, t, chain, val, i)
    ensures t.Inv() && t.dying == {}
  {
  }

  /** After each step the walk is at the next indirection, or at the value. */
  lemma {:induction false} CursorAlive(s: State, t: State, tag: nat, chain: seq<Addr>, val: Box, i: nat)
    requires s.Inv() && s.dying == {} && IsChain(s.mem, tag, chain, val) && chain[0] in s.held && i <= |chain|
    requires Walked(s, t, chain, val, i)
    ensures var v := Cursor(chain, val, i);
      && (v.Ptr? ==> v.a in t.mem)
      && (v.Ptr? && t.mem[v.a].tag == tag <==> i < |chain|)
  {
    hide State.Inv, After, Lookup;
    ValueAlive(s, tag, chain, val);
    if i < |chain| {
      Untouched(s, t, tag, chain, val, i);
    } else if val.Ptr? {
      ValueKept(s, t, tag, chain, val, i);
    }
  }

  /** Walk the indirections to find the final value. */
  method ChainEnd(mem: Mem, root: Addr, tag: nat, ghost chain: seq<Addr>, ghost end: Box) returns (val: Box)
    requires IsChain(mem, tag, chain, end) && chain[0] == root && (end.Ptr? ==> end.a in mem)
    ensures val == end
  {
    var b := root;
    ghost var i := 0;
    while true
      invariant i < |chain| && b == chain[i]
      decreases |chain| - i
    {
      val := mem[b].fields[0];
      i := i + 1;
      assert val == Cursor(chain, end, i);
      if !(val.Ptr? && mem[val.a].tag == tag) {
        break;
      }
      b := val.a;
    }
  }

  lemma ChainFacts(mem: Mem, tag: nat, chain: seq<Addr>, val: Box)
    requires IsChain(mem, tag, chain, val)
    ensures chain != [] && forall i | 0 <= i < |chain| :: chain[i] in mem && mem[chain[i]].fields == [Cursor(chain, val, i + 1)]
  {
  }

  lemma WouldWrite(s: State, b: Addr)
    requires b in s.held && b in s.mem && |s.mem[b].fields| == 1 && s.mem[b].rc == RC_SHARED_UNIQUE
    ensures WouldWriteFreed(s, b)
  {
    StillThere(s, b);
  }

  /** The next thing to do is to give up the last reference to the indirection `b`, which frees it,
      and then to write to it. */
  ghost predicate WouldWriteFreed(s: State, b: Addr) {
    b in s.held && b in s.mem && |s.mem[b].fields| == 1 && s.mem[b].rc != 0 && b !in Decreffed(s, b).mem
  }

  /** Follow the indirections from `root`, which is consumed, to the value at the end. What happens
      from a write to freed memory on is not defined, so the walk stops there. */
  method CompressAll(h: RcHeap, root: Addr, tag: nat, ghost chain: seq<Addr>, ghost end: Box)
      returns (val: Box, completed: bool, ghost steps: nat)
    requires h.S().Inv() && h.dying == {} && root in h.held
    requires IsChain(h.mem, tag, chain, end) && chain[0] == root
    modifies h
    ensures val == end && steps <= |chain| && Walked(old(h.S()), h.S(), chain, val, steps)
    ensures completed <==> forall i | 0 <= i < |chain| :: old(h.mem)[chain[i]].rc != RC_SHARED_UNIQUE
    ensures completed ==> steps == |chain|
    ensures !completed ==> steps < |chain| && WouldWriteFreed(h.S(), chain[steps])
  {
    hide State.Inv, Walked, Updated, WouldWriteFreed, IsChain, Freed, Ref;
    ghost var s := h.S();
    ValueAlive(s, tag, chain, end);
    val := ChainEnd(h.mem, root, tag, chain, end);
    // walk again and update all indirections with the value
    var b := root;
    ghost var i := 0;
    completed, steps := true, |chain|;
    assert Walked(s, s, chain, end, 0) by {
      NothingWalked(s, tag, chain, end);
    }
    ChainFacts(s.mem, tag, chain, end);
    while true
      invariant i < |chain| && b == chain[i] && Walked(s, h.S(), chain, end, i)
      invariant completed && steps == |chain| && forall k | 0 <= k < i :: s.mem[chain[k]].rc != RC_SHARED_UNIQUE
      decreases |chain| - i
    {
      Untouched(s, h.S(), tag, chain, end, i);
      if val.Ptr? {
        ValueKept(s, h.S(), tag, chain, end, i);
      }
      WalkedFacts(s, h.S(), chain, end, i);
      ghost var t := h.S();
      var next := h.mem[b].fields[0];
      if h.mem[b].rc == 0 {
        FreeUnique(h, b);
        WalkFrees(s, t, h.S(), tag, chain, end, i);
      } else if h.mem[b].rc == RC_SHARED_UNIQUE {
        WouldWrite(t, b);
        return val, false, i;
      } else {
        Redirect(h, b, val);
        WalkUpdates(s, t, h.S(), tag, chain, end, i);
      }
      i := i + 1;
      CursorAlive(s, h.S(), tag, chain, end, i);
      if !(next.Ptr? && h.mem[next.a].tag == tag) {
        break;
      }
      b := next.a;
    }
  }

  /** What a completed walk leaves: each indirection is freed, or has one reference less and points to the
      value; everything else stays as it was, but for the count of the value. */
  lemma {:induction false} WalkedAll(s: State, t: State, tag: nat, chain: seq<Addr>, val: Box)
    requires IsChain(s.mem, tag, chain, val) && Walked(s, t, chain, val, |chain|) && chain[0] in s.held
    ensures forall i | 0 <= i < |chain| ::
      && chain[i] in s.mem && (s.mem[chain[i]].rc == 0 <==> chain[i] !in t.mem)
      && (chain[i] in t.mem ==> t.mem[chain[i]].fields == [val] && t.mem[chain[i]].tag == tag)
      && (s.mem[chain[i]].rc > 0 ==> t.mem[chain[i]].rc == s.mem[chain[i]].rc - 1)
      && (-0x6000_0000 < s.mem[chain[i]].rc < -1 && chain[i] in t.mem ==> t.mem[chain[i]].rc == s.mem[chain[i]].rc + 1)
    ensures forall a | a in s.mem && a !in chain ::
      && a in t.mem
      && t.mem[a] == s.mem[a].(rc := t.mem[a].rc) && (val != Ptr(a) ==> t.mem[a] == s.mem[a])
    ensures t.Inv() && t.dying == {} && t.held == s.held - multiset{chain[0]} + Ref(val)
  {
    hide State.Inv, Bumped;
    assert chain[..|chain|] == chain;
    forall i | 0 <= i < |chain|
      ensures chain[i] in s.mem && Lookup(t.mem, chain[i]) == After(s.mem, chain, val, |chain|, chain[i])
    {
      assert chain[i] in chain;
    }
    forall a | a in s.mem && a !in chain
      ensures Lookup(t.mem, a) == After(s.mem, chain, val, |chain|, a)
    {
    }
  }
}
