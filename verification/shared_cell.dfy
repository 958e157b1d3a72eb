/** A mutable cell shared between threads, under any interleaving of reads and swaps. A reader first
    swaps in a guard, so that it can take a reference to the contents before another thread can
    swap them out and drop them. */
module SharedCell {
  import opened Options

  type Thread = nat
  type Addr = nat
  type RefId = nat

  /** The word in the cell: the guard 0, an unboxed value, or a pointer to a block. */
  datatype Word = Guard | Raw(n: int) | Ptr(a: Addr)

  /** The word 1: what is expected instead of the guard. */
  const ONE: Word := Raw(0)

  /** Who owns a reference: the cell (also while it is guarded), a thread that is about to swap it
      in, a reader that has not returned yet, or running code. */
  datatype Owner = Cell | Offered(t: Thread) | Reading(t: Thread) | Code

  /** Where a thread is inside an operation on the cell. */
  datatype Pc =
    | Idle
    | Getting(b: Word)                             // about to test `b` and to swap in the guard
    | Guarding(b: Word)                            // took `b` out: about to duplicate it
    | Releasing(b: Word, mine: Option<RefId>)      // duplicated `b`: about to write it back
    | Swapping(b: Word, v: Word, offer: Option<RefId>) // about to swap in `v`
    | Stuck                                        // the write-back failed

  /** `refs` are the references to blocks that exist, with their owners; a block is freed when its
      last one is dropped. `log` are all words ever stored, `handed` those that swaps returned, and
      `holder` is the thread that has put the guard in the cell. */
  datatype State = State(cell: Word, holder: Option<Thread>, content: Option<RefId>, refs: map<RefId, Addr>, owner: map<RefId, Owner>,
                         freed: set<Addr>, pc: map<Thread, Pc>, log: seq<Word>, handed: seq<Word>)

  predicate IsPtrTo(s: State, w: Word, r: Option<RefId>, o: Owner) {
    if w.Ptr? then r.Some? && r.value in s.refs && s.refs[r.value] == w.a && r.value in s.owner && s.owner[r.value] == o
    else r.None?
  }

  predicate At(s: State, t: Thread, pc: Pc) {
    t in s.pc && s.pc[t] == pc
  }

  function Goto(s: State, t: Thread, pc: Pc): State {
    s.(pc := s.pc[t := pc])
  }

  /** A relaxed read of the cell may return the guard or any word that was ever stored. */
  predicate MayRead(s: State, w: Word) {
    w == Guard || w in s.log
  }

  /** The word that a compare-and-swap expects: never the guard. */
  function Expected(b: Word): Word {
    if b == Guard then ONE else b
  }

  predicate Live(s: State, w: Word) {
    w.Ptr? ==> w.a !in s.freed
  }

  // ------- the steps of thread t -------

  ghost predicate StartGet(s: State, s': State, t: Thread, b: Word) {
    At(s, t, Idle) && MayRead(s, b) && s' == Goto(s, t, Getting(b))
  }

  /** An unboxed value is returned at once. */
  ghost predicate GetRaw(s: State, s': State, t: Thread, b: Word) {
    At(s, t, Getting(b)) && b.Raw? && s' == Goto(s, t, Idle)
  }

  ghost predicate TakeGuard(s: State, s': State, t: Thread, b: Word) {
    && At(s, t, Getting(b)) && !b.Raw? && s.cell == Expected(b)
    && s' == Goto(s, t, Guarding(s.cell)).(cell := Guard, holder := Some(t))
  }

  /** The compare-and-swap failed, possibly spuriously: `b` is now the word in the cell. */
  ghost predicate MissGuard(s: State, s': State, t: Thread, b: Word) {
    At(s, t, Getting(b)) && !b.Raw? && s' == Goto(s, t, Getting(s.cell))
  }

  /** Duplicating `b` adds a reference to its block, if there is one. */
  ghost predicate DupContent(s: State, s': State, t: Thread, b: Word, r: RefId) {
    && At(s, t, Guarding(b)) && r !in s.refs && r !in s.owner
    && s' == if b.Ptr? then Goto(s, t, Releasing(b, Some(r))).(refs := s.refs[r := b.a], owner := s.owner[r := Reading(t)])
             else Goto(s, t, Releasing(b, None))
  }

  /** The word is written back, and returned to code together with the reference. */
  ghost predicate Release(s: State, s': State, t: Thread, b: Word, mine: Option<RefId>) {
    && At(s, t, Releasing(b, mine))
    && s' == if s.cell != Guard then Goto(s, t, Stuck)
             else Goto(s, t, Idle).(cell := b, holder := None, owner := if mine.Some? then s.owner[mine.value := Code] else s.owner)
  }

  /** Code gives up a reference of its own to the cell, to be swapped in. */
  ghost predicate StartSwap(s: State, s': State, t: Thread, b: Word, v: Word, offer: Option<RefId>) {
    && At(s, t, Idle) && MayRead(s, b) && v != Guard && IsPtrTo(s, v, offer, Code)
    && s' == Goto(if v.Ptr? then s.(owner := s.owner[offer.value := Offered(t)]) else s, t, Swapping(b, v, offer))
  }

  /** The words are exchanged, and with them the references: the old word is handed out. */
  ghost predicate Swap(s: State, s': State, t: Thread, b: Word, v: Word, offer: Option<RefId>) {
    && At(s, t, Swapping(b, v, offer)) && s.cell == Expected(b)
    && var out := if s.content.Some? then s.owner[s.content.value := Code] else s.owner;
       s' == Goto(s, t, Idle).(cell := v, content := offer, owner := if offer.Some? then out[offer.value := Cell] else out,
                               log := s.log + [v], handed := s.handed + [s.cell])
  }

  ghost predicate MissSwap(s: State, s': State, t: Thread, b: Word, v: Word, offer: Option<RefId>) {
    At(s, t, Swapping(b, v, offer)) && s' == Goto(s, t, Swapping(s.cell, v, offer))
  }

  /** Code creates a new block, possibly where another one was freed, or duplicates a reference of its own. */
  ghost predicate NewRef(s: State, s': State, r: RefId, a: Addr) {
    && r !in s.refs && r !in s.owner
    && (a !in s.refs.Values || exists o: RefId :: o in s.owner && s.owner[o] == Code && o in s.refs && s.refs[o] == a)
    && s' == s.(refs := s.refs[r := a], owner := s.owner[r := Code], freed := s.freed - {a})
  }

  /** Code drops a reference of its own; without a reference the block is freed. */
  ghost predicate DropRef(s: State, s': State, r: RefId) {
    && r in s.refs && r in s.owner && s.owner[r] == Code
    && var left := s.refs - {r};
       s' == s.(refs := left, owner := s.owner - {r},
                freed := if s.refs[r] in left.Values then s.freed else s.freed + {s.refs[r]})
  }

  ghost predicate ThreadStep(s: State, s': State, t: Thread) {
    || (exists b :: StartGet(s, s', t, b)) || (exists b :: GetRaw(s, s', t, b))
    || (exists b :: TakeGuard(s, s', t, b)) || (exists b :: MissGuard(s, s', t, b))
    || (exists b, r: RefId :: DupContent(s, s', t, b, r)) || (exists b, mine :: Release(s, s', t, b, mine))
    || (exists b, v, offer :: StartSwap(s, s', t, b, v, offer))
    || (exists b, v, offer :: Swap(s, s', t, b, v, offer)) || (exists b, v, offer :: MissSwap(s, s', t, b, v, offer))
  }

  ghost predicate Next(s: State, s': State) {
    (exists t: Thread :: ThreadStep(s, s', t)) || (exists r: RefId, a: Addr :: NewRef(s, s', r, a)) || exists r: RefId :: DropRef(s, s', r)
  }

  // ------- what every step keeps -------

  /** Thread `t` holds the guard, having taken out `b`. */
  predicate HoldsGuard(s: State, t: Thread, b: Word) {
    t in s.pc && (s.pc[t] == Guarding(b) || (s.pc[t].Releasing? && s.pc[t].b == b))
  }

  /** The word that the cell stands for: the one last stored. */
  function Current(s: State): Word
    requires s.log != []
  {
    s.log[|s.log| - 1]
  }

  /** What holds for a thread at `pc`; the write-back never fails. */
  predicate PcInv(s: State, t: Thread, pc: Pc)
    requires s.log != []
  {
    match pc
    case Idle => true
    case Getting(b) => MayRead(s, b)
    case Guarding(b) => s.holder == Some(t) && b == Current(s)
    case Releasing(b, mine) => s.holder == Some(t) && b == Current(s) && IsPtrTo(s, b, mine, Reading(t))
    case Swapping(b, v, offer) => v != Guard && IsPtrTo(s, v, offer, Offered(t))
    case Stuck => false
  }

  ghost predicate Inv(s: State) {
    // every swap handed out the word stored before
    && s.log != [] && s.handed == s.log[..|s.log| - 1] && Guard !in s.log
    // the guard is in the cell exactly when a thread holds it; otherwise the last word stored is
    && s.cell == (if s.holder.Some? then Guard else Current(s))
    && (s.holder.Some? ==> HoldsGuard(s, s.holder.value, Current(s)))
    && (forall t: Thread | t in s.pc :: PcInv(s, t, s.pc[t]))
    // references are owned by whoever the words say, and freed blocks have none
    && s.refs.Keys == s.owner.Keys
    && IsPtrTo(s, Current(s), s.content, Cell)
    && (forall r: RefId | r in s.refs :: s.refs[r] !in s.freed)
  }

  ghost predicate Init(s: State) {
    && s.cell != Guard && s.holder == None && s.log == [s.cell] && s.handed == []
    && s.refs.Keys == s.owner.Keys && IsPtrTo(s, s.cell, s.content, Cell)
    && (forall r: RefId | r in s.refs :: s.refs[r] !in s.freed)
    && (forall t: Thread | t in s.pc :: s.pc[t] == Idle)
  }

  lemma InitKeeps(s: State)
    requires Init(s)
    ensures Inv(s)
  {
  }

  lemma StartGetKeeps(s: State, s': State, t: Thread, b: Word)
    requires Inv(s) && StartGet(s, s', t, b)
    ensures Inv(s')
  {
  }

  lemma GetRawKeeps(s: State, s': State, t: Thread, b: Word)
    requires Inv(s) && GetRaw(s, s', t, b)
    ensures Inv(s')
  {
  }

  lemma TakeGuardKeeps(s: State, s': State, t: Thread, b: Word)
    requires Inv(s) && TakeGuard(s, s', t, b)
    ensures Inv(s')
  {
  }

  lemma MissGuardKeeps(s: State, s': State, t: Thread, b: Word)
    requires Inv(s) && MissGuard(s, s', t, b)
    ensures Inv(s')
  {
  }

  lemma DupContentKeeps(s: State, s': State, t: Thread, b: Word, r: RefId)
    requires Inv(s) && DupContent(s, s', t, b, r)
    ensures Inv(s')
  {
  }

  lemma ReleaseKeeps(s: State, s': State, t: Thread, b: Word, mine: Option<RefId>)
    requires Inv(s) && Release(s, s', t, b, mine)
    ensures Inv(s')
  {
  }

  lemma StartSwapKeeps(s: State, s': State, t: Thread, b: Word, v: Word, offer: Option<RefId>)
    requires Inv(s) && StartSwap(s, s', t, b, v, offer)
    ensures Inv(s')
  {
  }

  lemma SwapKeeps(s: State, s': State, t: Thread, b: Word, v: Word, offer: Option<RefId>)
    requires Inv(s) && Swap(s, s', t, b, v, offer)
    ensures Inv(s')
  {
  }

  lemma MissSwapKeeps(s: State, s': State, t: Thread, b: Word, v: Word, offer: Option<RefId>)
    requires Inv(s) && MissSwap(s, s', t, b, v, offer)
    ensures Inv(s')
  {
  }

  lemma NewRefKeeps(s: State, s': State, r: RefId, a: Addr)
    requires Inv(s) && NewRef(s, s', r, a)
    ensures Inv(s')
  {
  }

  lemma DropRefKeeps(s: State, s': State, r: RefId)
    requires Inv(s) && DropRef(s, s', r)
    ensures Inv(s')
  {
    forall t: Thread | t in s'.pc ensures PcInv(s', t, s'.pc[t]) {
      assert PcInv(s, t, s.pc[t]);
    }
    var left := s.refs - {r};
    forall q: RefId | q in left ensures left[q] !in s'.freed {
      assert left[q] in left.Values;
    }
  }

  lemma ThreadStepKeeps(s: State, s': State, t: Thread)
    requires Inv(s) && ThreadStep(s, s', t)
    ensures Inv(s')
  {
    hide Inv, StartGet, GetRaw, TakeGuard, MissGuard, DupContent, Release, StartSwap, Swap, MissSwap;
    if b :| StartGet(s, s', t, b) {
      StartGetKeeps(s, s', t, b);
    } else if b :| GetRaw(s, s', t, b) {
      GetRawKeeps(s, s', t, b);
    } else if b :| TakeGuard(s, s', t, b) {
      TakeGuardKeeps(s, s', t, b);
    } else if b :| MissGuard(s, s', t, b) {
      MissGuardKeeps(s, s', t, b);
    } else if b, r: RefId :| DupContent(s, s', t, b, r) {
      DupContentKeeps(s, s', t, b, r);
    } else if b, mine :| Release(s, s', t, b, mine) {
      ReleaseKeeps(s, s', t, b, mine);
    } else if b, v, offer :| StartSwap(s, s', t, b, v, offer) {
      StartSwapKeeps(s, s', t, b, v, offer);
    } else if b, v, offer :| Swap(s, s', t, b, v, offer) {
      SwapKeeps(s, s', t, b, v, offer);
    } else {
      var b, v, offer :| MissSwap(s, s', t, b, v, offer);
      MissSwapKeeps(s, s', t, b, v, offer);
    }
  }

  lemma NextKeeps(s: State, s': State)
    requires Inv(s) && Next(s, s')
    ensures Inv(s')
  {
    hide Inv, ThreadStep, NewRef, DropRef;
    if t: Thread :| ThreadStep(s, s', t) {
      ThreadStepKeeps(s, s', t);
    } else if r: RefId, a: Addr :| NewRef(s, s', r, a) {
      NewRefKeeps(s, s', r, a);
    } else {
      var r: RefId :| DropRef(s, s', r);
      DropRefKeeps(s, s', r);
    }
  }

  // ------- whole runs -------

  ghost predicate Run(states: seq<State>) {
    && states != [] && Init(states[0])
    && forall i | 0 <= i < |states| - 1 :: Next(states[i], states[i + 1])
  }

  lemma {:induction false} RunKeeps(states: seq<State>, i: nat)
    requires Run(states) && i < |states|
    ensures Inv(states[i])
  {
    if i == 0 {
      InitKeeps(states[0]);
    } else {
      RunKeeps(states, i - 1);
      NextKeeps(states[i - 1], states[i]);
    }
  }

  /** At any time at most one reader has the guard in the cell. */
  lemma {:induction false} OneReader(states: seq<State>, i: nat, t: Thread, t': Thread, b: Word, b': Word)
    requires Run(states) && i < |states| && HoldsGuard(states[i], t, b) && HoldsGuard(states[i], t', b')
    ensures states[i].log != [] && t == t' && b == b' == Current(states[i])
  {
    RunKeeps(states, i);
    assert PcInv(states[i], t, states[i].pc[t]) && PcInv(states[i], t', states[i].pc[t']);
  }

  /** Writing the contents back always finds the guard. */
  lemma {:induction false} ReleaseSucceeds(states: seq<State>, i: nat, t: Thread, b: Word, mine: Option<RefId>)
    requires Run(states) && i < |states| && At(states[i], t, Releasing(b, mine))
    ensures states[i].cell == Guard && !At(states[i], t, Stuck)
  {
    RunKeeps(states, i);
    assert PcInv(states[i], t, states[i].pc[t]);
  }

  /** The contents are live when a reader duplicates them: the cell still owns a reference. */
  lemma {:induction false} DupsLiveContent(states: seq<State>, i: nat, t: Thread, b: Word)
    requires Run(states) && i < |states| && At(states[i], t, Guarding(b))
    ensures Live(states[i], b) && IsPtrTo(states[i], b, states[i].content, Cell)
  {
    RunKeeps(states, i);
    assert PcInv(states[i], t, states[i].pc[t]);
  }

  /** A reader that returns has a reference of its own to the word, so the word is live. */
  lemma {:induction false} ReturnsOwned(states: seq<State>, i: nat, t: Thread, b: Word, mine: Option<RefId>)
    requires Run(states) && i + 1 < |states| && Release(states[i], states[i + 1], t, b, mine)
    ensures At(states[i + 1], t, Idle) && IsPtrTo(states[i + 1], b, mine, Code) && Live(states[i + 1], b)
    ensures b.Ptr? ==> states[i].content.Some? && mine != states[i].content
  {
    RunKeeps(states, i);
    RunKeeps(states, i + 1);
    assert PcInv(states[i], t, states[i].pc[t]);
  }

  /** A swap exchanges the references with the words: the one that the cell had to the old word is
      handed to code, and the offered one is what the cell has now. */
  lemma {:induction false} SwapHandsOver(states: seq<State>, i: nat, t: Thread, b: Word, v: Word, offer: Option<RefId>)
    requires Run(states) && i + 1 < |states| && Swap(states[i], states[i + 1], t, b, v, offer)
    ensures states[i + 1].handed == states[i].handed + [states[i].cell] && states[i + 1].cell == v
    ensures IsPtrTo(states[i + 1], states[i].cell, states[i].content, Code) && Live(states[i + 1], states[i].cell)
    ensures IsPtrTo(states[i + 1], v, offer, Cell) && states[i + 1].content == offer
  {
    RunKeeps(states, i);
    RunKeeps(states, i + 1);
    assert PcInv(states[i], t, states[i].pc[t]);
  }

  /** A reference stays, with its block, until it is dropped. */
  lemma {:induction false} LiveUntilDropped(states: seq<State>, i: nat, j: nat, r: RefId)
    requires Run(states) && i <= j < |states| && r in states[i].refs
    requires forall k | i <= k < j :: !DropRef(states[k], states[k + 1], r)
    ensures r in states[j].refs && states[j].refs[r] == states[i].refs[r] && states[j].refs[r] !in states[j].freed
  {
    hide Next;
    RunKeeps(states, j);
    if i < j {
      LiveUntilDropped(states, i, j - 1, r);
      StaysUnlessDropped(states[j - 1], states[j], r);
    }
  }

  lemma StaysUnlessDropped(s: State, s': State, r: RefId)
    requires Next(s, s') && r in s.refs && !DropRef(s, s', r)
    ensures r in s'.refs && s'.refs[r] == s.refs[r]
  {
    hide ThreadStep, NewRef;
    if t: Thread :| ThreadStep(s, s', t) {
      ThreadStepStays(s, s', t);
    } else if q: RefId, a: Addr :| NewRef(s, s', q, a) {
      NewRefStays(s, s', q, a);
    }
  }

  lemma ThreadStepStays(s: State, s': State, t: Thread)
    requires ThreadStep(s, s', t)
    ensures s.refs.Keys <= s'.refs.Keys && forall r | r in s.refs :: s'.refs[r] == s.refs[r]
    ensures s'.freed == s.freed
  {
  }

  lemma NewRefStays(s: State, s': State, q: RefId, a: Addr)
    requires NewRef(s, s', q, a)
    ensures s.refs.Keys <= s'.refs.Keys && (forall r | r in s.refs :: s'.refs[r] == s.refs[r])
    ensures s'.freed == s.freed - {a} && a in s'.refs.Values
  {
    assert s'.refs[q] == a;
  }

  /** A block that has no reference any more is freed. */
  lemma {:induction false} FreedWithoutReferences(states: seq<State>, i: nat, j: nat, a: Addr)
    requires Run(states) && i <= j < |states| && a in states[i].refs.Values
    ensures a in states[j].refs.Values || a in states[j].freed
  {
    hide Next;
    if i < j {
      FreedWithoutReferences(states, i, j - 1, a);
      StaysOrFreed(states[j - 1], states[j], a);
    }
  }

  lemma {:induction false} StaysOrFreed(s: State, s': State, a: Addr)
    requires Next(s, s') && (a in s.refs.Values || a in s.freed)
    ensures a in s'.refs.Values || a in s'.freed
  {
    hide ThreadStep, NewRef;
    if t: Thread :| ThreadStep(s, s', t) {
      ThreadStepStays(s, s', t);
      if r :| r in s.refs && s.refs[r] == a {
        assert s'.refs[r] == a;
      }
    } else if q: RefId, b: Addr :| NewRef(s, s', q, b) {
      NewRefStays(s, s', q, b);
      if r :| r in s.refs && s.refs[r] == a {
        assert s'.refs[r] == a;
      }
    } else {
      var q: RefId :| DropRef(s, s', q);
      if r :| r in s'.refs && r in s.refs && s.refs[r] == a {
        assert s'.refs[r] == a;
      }
    }
  }

  /** Whatever was stored was handed out by exactly one swap, in order, except for the current word. */
  lemma {:induction false} HandedOutOnce(states: seq<State>, i: nat)
    requires Run(states) && i < |states|
    ensures states[i].log != [] && states[i].log == states[i].handed + [Current(states[i])]
  {
    RunKeeps(states, i);
  }

  /** A word that a reader returns directly was stored at some time, and is never the guard. */
  lemma {:induction false} ReturnsStored(states: seq<State>, i: nat, t: Thread, b: Word)
    requires Run(states) && i < |states| && At(states[i], t, Getting(b)) && b.Raw?
    ensures b in states[i].log
  {
    RunKeeps(states, i);
    assert PcInv(states[i], t, states[i].pc[t]);
  }

  // ------- no reference is forgotten -------

  /** Whoever owns a reference still knows it. */
  predicate Known(s: State, r: RefId, o: Owner) {
    match o
    case Cell => s.content == Some(r)
    case Offered(t) => t in s.pc && s.pc[t].Swapping? && s.pc[t].offer == Some(r)
    case Reading(t) => t in s.pc && s.pc[t].Releasing? && s.pc[t].mine == Some(r)
    case Code => true
  }

  ghost predicate AllKnown(s: State) {
    forall r: RefId | r in s.owner :: Known(s, r, s.owner[r])
  }

  lemma DupContentKnown(s: State, s': State, t: Thread, b: Word, r: RefId)
    requires AllKnown(s) && DupContent(s, s', t, b, r)
    ensures AllKnown(s')
  {
  }

  lemma ReleaseKnown(s: State, s': State, t: Thread, b: Word, mine: Option<RefId>)
    requires AllKnown(s) && Release(s, s', t, b, mine) && s.cell == Guard
    ensures AllKnown(s')
  {
  }

  lemma StartSwapKnown(s: State, s': State, t: Thread, b: Word, v: Word, offer: Option<RefId>)
    requires AllKnown(s) && StartSwap(s, s', t, b, v, offer)
    ensures AllKnown(s')
  {
  }

  lemma SwapKnown(s: State, s': State, t: Thread, b: Word, v: Word, offer: Option<RefId>)
    requires AllKnown(s) && Swap(s, s', t, b, v, offer)
    ensures AllKnown(s')
  {
  }

  lemma ThreadStepKnown(s: State, s': State, t: Thread)
    requires Inv(s) && AllKnown(s) && ThreadStep(s, s', t)
    ensures AllKnown(s')
  {
    hide Inv, DupContent, Release, StartSwap, Swap;
    if b, r: RefId :| DupContent(s, s', t, b, r) {
      DupContentKnown(s, s', t, b, r);
    } else if b, mine :| Release(s, s', t, b, mine) {
      FindsGuard(s, s', t, b, mine);
      ReleaseKnown(s, s', t, b, mine);
    } else if b, v, offer :| StartSwap(s, s', t, b, v, offer) {
      StartSwapKnown(s, s', t, b, v, offer);
    } else if b, v, offer :| Swap(s, s', t, b, v, offer) {
      SwapKnown(s, s', t, b, v, offer);
    }
  }

  lemma FindsGuard(s: State, s': State, t: Thread, b: Word, mine: Option<RefId>)
    requires Inv(s) && Release(s, s', t, b, mine)
    ensures s.cell == Guard
  {
    assert PcInv(s, t, s.pc[t]);
  }

  lemma NextKnown(s: State, s': State)
    requires Inv(s) && AllKnown(s) && Next(s, s')
    ensures AllKnown(s')
  {
    hide Inv, ThreadStep;
    if t: Thread :| ThreadStep(s, s', t) {
      ThreadStepKnown(s, s', t);
    }
  }

  /** If code owned every reference but the one of the cell at the start, then so it does whenever no
      thread is inside an operation. */
  lemma {:induction false} NoneForgotten(states: seq<State>, i: nat, r: RefId)
    requires Run(states) && AllKnown(states[0]) && i < |states| && r in states[i].refs
    requires forall t | t in states[i].pc :: states[i].pc[t] == Idle
    ensures r in states[i].owner && (states[i].owner[r] == Code || (states[i].owner[r] == Cell && states[i].content == Some(r)))
  {
    RunKeeps(states, i);
    RunKnown(states, i);
    assert Known(states[i], r, states[i].owner[r]);
  }

  lemma {:induction false} RunKnown(states: seq<State>, i: nat)
    requires Run(states) && AllKnown(states[0]) && i < |states|
    ensures AllKnown(states[i])
  {
    hide Inv, Next, AllKnown;
    if i > 0 {
      RunKnown(states, i - 1);
      RunKeeps(states, i - 1);
      NextKnown(states[i - 1], states[i]);
    }
  }
}
