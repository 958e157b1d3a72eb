/** The reference count of one thread-shared block under any interleaving of dup and drop: each
    operation first reads the count and decides by that value, which may be stale by the time of
    its atomic update. */
module SharedCount {
  import opened Heap

  type Thread = nat

  /** Where a thread is inside an operation on the block. */
  datatype Pc =
    | Idle
    | WillDup      // read a count above RC_STICKY: the atomic decrement is next
    | WillDrop     // read a count above RC_STICKY_DROP: the atomic increment is next
    | WillClear    // the increment returned RC_SHARED_UNIQUE: set the count to 0 ...
    | WillFree     // ... and free the block

  /** `low` is the least value the count ever had, `refs` are the references each thread owns,
      `frees` counts how often the block was freed and `skipped` the drops that left the count alone. */
  datatype State = State(rc: int, low: int, refs: map<Thread, nat>, pc: map<Thread, Pc>, frees: nat, skipped: nat) {
    /** The count was in the fully sticky range once. */
    predicate WasSticky() {
      low <= RC_STICKY
    }
  }

  /** How far a relaxed read may lag behind the atomic value, and how many threads there are:
      together less than the size of either sticky range. Nothing else is known about them. */
  type Lag = n: nat | n < 0x1000_0000

  const STALENESS: Lag
  const MAX_THREADS: nat := 0x1000_0000 - STALENESS

  /** A relaxed read returns the current or a past value of the shared count. */
  predicate MayRead(s: State, v: int) {
    v < 0 && s.low <= v <= s.rc + STALENESS
  }

  /** 32-bit two's complement wrap-around. */
  function Int32(x: int): int {
    if x > INT32_MAX then x - 0x1_0000_0000 else if x < RC_STUCK then x + 0x1_0000_0000 else x
  }

  function SetCount(s: State, rc: int): State {
    s.(rc := rc, low := if rc < s.low then rc else s.low)
  }

  function Goto(s: State, t: Thread, pc: Pc): State {
    s.(pc := s.pc[t := pc])
  }

  function Gain(s: State, t: Thread): State
    requires t in s.refs
  {
    s.(refs := s.refs[t := s.refs[t] + 1])
  }

  function Lose(s: State, t: Thread): State
    requires t in s.refs && s.refs[t] > 0
  {
    s.(refs := s.refs[t := s.refs[t] - 1])
  }

  // ------- the steps of thread t -------

  predicate CanStart(s: State, t: Thread) {
    t in s.refs && t in s.pc && s.pc[t] == Idle && s.refs[t] > 0
  }

  ghost predicate ReadForDup(s: State, s': State, t: Thread, rc0: int) {
    && CanStart(s, t) && MayRead(s, rc0)
    && s' == if rc0 > RC_STICKY then Goto(s, t, WillDup) else Gain(s, t)
  }

  ghost predicate AtomicDup(s: State, s': State, t: Thread) {
    && t in s.pc && t in s.refs && s.pc[t] == WillDup
    && s' == SetCount(Gain(Goto(s, t, Idle), t), Int32(s.rc - 1))
  }

  ghost predicate ReadForDrop(s: State, s': State, t: Thread, rc0: int) {
    && CanStart(s, t) && MayRead(s, rc0)
    && s' == if rc0 <= RC_STICKY_DROP then Lose(s, t).(skipped := s.skipped + 1) else Goto(s, t, WillDrop)
  }

  ghost predicate AtomicDrop(s: State, s': State, t: Thread) {
    && t in s.pc && t in s.refs && s.pc[t] == WillDrop && s.refs[t] > 0
    && s' == SetCount(Lose(Goto(s, t, if s.rc == RC_SHARED_UNIQUE then WillClear else Idle), t), Int32(s.rc + 1))
  }

  ghost predicate Clear(s: State, s': State, t: Thread) {
    && t in s.pc && s.pc[t] == WillClear
    && s' == SetCount(Goto(s, t, WillFree), 0)
  }

  ghost predicate Free(s: State, s': State, t: Thread) {
    && t in s.pc && s.pc[t] == WillFree
    && s' == Goto(s, t, Idle).(frees := s.frees + 1)
  }

  /** A reference moves between threads. */
  ghost predicate Transfer(s: State, s': State, t: Thread, u: Thread) {
    && CanStart(s, t) && u in s.refs && u != t
    && s' == Gain(Lose(s, t), u)
  }

  /** An owned reference whose count reads as unshared: the non-atomic paths would be taken. */
  ghost predicate ReadsUnshared(s: State, t: Thread) {
    CanStart(s, t) && s.rc >= 0
  }

  ghost predicate ThreadStep(s: State, s': State, t: Thread) {
    || (exists rc0 :: ReadForDup(s, s', t, rc0)) || AtomicDup(s, s', t)
    || (exists rc0 :: ReadForDrop(s, s', t, rc0)) || AtomicDrop(s, s', t)
    || Clear(s, s', t) || Free(s, s', t)
    || exists u :: Transfer(s, s', t, u)
  }

  ghost predicate Next(s: State, s': State) {
    exists t :: ThreadStep(s, s', t)
  }

  // ------- counting -------

  ghost function Total(refs: map<Thread, nat>): nat {
    if refs == map[] then 0
    else
      var t :| t in refs;
      refs[t] + Total(refs - {t})
  }

  lemma {:induction false} TotalRemove(refs: map<Thread, nat>, t: Thread)
    requires t in refs
    ensures Total(refs) == refs[t] + Total(refs - {t})
    decreases |refs|
  {
    var u :| u in refs && Total(refs) == refs[u] + Total(refs - {u});
    if u != t {
      TotalRemove(refs - {u}, t);
      TotalRemove(refs - {t}, u);
      assert refs - {u} - {t} == refs - {t} - {u};
    }
  }

  lemma {:induction false} TotalUpdate(refs: map<Thread, nat>, t: Thread, n: nat)
    requires t in refs
    ensures Total(refs[t := n]) == Total(refs) - refs[t] + n
  {
    TotalRemove(refs, t);
    TotalRemove(refs[t := n], t);
    assert refs[t := n] - {t} == refs - {t};
  }

  /** The threads at `at`. */
  ghost function Those(pc: map<Thread, Pc>, at: Pc): set<Thread> {
    set t | t in pc && pc[t] == at
  }

  ghost function Count(s: State, at: Pc): nat {
    |Those(s.pc, at)|
  }

  lemma {:induction false} CountGoto(s: State, t: Thread, to: Pc, at: Pc)
    requires t in s.pc
    ensures Count(Goto(s, t, to), at) == Count(s, at) - (if s.pc[t] == at then 1 else 0) + (if to == at then 1 else 0)
  {
    var a, b := Those(s.pc, at), Those(s.pc[t := to], at);
    assert a - {t} == b - {t};
    assert |a - {t}| == |a| - (if t in a then 1 else 0);
    assert |b - {t}| == |b| - (if t in b then 1 else 0);
  }

  lemma {:induction false} CountBound(s: State, at: Pc)
    ensures Count(s, at) <= |s.pc|
  {
    Subset(Those(s.pc, at), s.pc.Keys);
  }

  lemma {:induction false} Subset(a: set<Thread>, b: set<Thread>)
    requires a <= b
    ensures |a| <= |b|
  {
    if a != {} {
      var t :| t in a;
      Subset(a - {t}, b - {t});
    }
  }

  // ------- the invariant -------

  ghost function Ending(s: State): nat {
    Count(s, WillClear) + Count(s, WillFree) + s.frees
  }

  ghost predicate Inv(s: State) {
    && s.refs.Keys == s.pc.Keys && |s.pc| < MAX_THREADS
    // an operation in progress still owns the reference it works on
    && (forall t | t in s.pc && (s.pc[t] == WillDup || s.pc[t] == WillDrop) :: s.refs[t] > 0)
    // the count is exact, up to skipped drops, until it was fully sticky
    && s.low <= s.rc
    && (!s.WasSticky() ==> -s.rc == Total(s.refs) + s.skipped)
    // from then on it stays in the range where nobody decides to drop
    && (s.WasSticky() ==> s.rc + Count(s, WillDrop) <= RC_STICKY_DROP - STALENESS)
    // and pending dups cannot make it wrap
    && s.rc - Count(s, WillDup) > RC_STUCK
    // the block ends exactly when the count reaches 0
    && (Ending(s) == if s.rc == 0 then 1 else 0)
    && s.rc <= 0
  }

  ghost predicate Init(s: State) {
    && s.refs.Keys == s.pc.Keys && |s.pc| < MAX_THREADS
    && (forall t | t in s.pc :: s.pc[t] == Idle)
    && Total(s.refs) > 0 && -s.rc == Total(s.refs) && s.rc > RC_STICKY
    && s.low == s.rc && s.frees == 0 && s.skipped == 0
  }

  lemma {:induction false} TotalAtLeast(refs: map<Thread, nat>, t: Thread)
    requires t in refs
    ensures Total(refs) >= refs[t]
  {
    TotalRemove(refs, t);
  }

  lemma {:induction false} InitHolds(s: State)
    requires Init(s)
    ensures Inv(s)
  {
    forall at | at != Idle
      ensures Count(s, at) == 0
    {
      assert Those(s.pc, at) == {};
    }
  }

  /** All four counts after one thread moved. */
  lemma {:induction false} CountsGoto(s: State, t: Thread, to: Pc)
    requires t in s.pc
    ensures forall at :: Count(Goto(s, t, to), at) == Count(s, at) - (if s.pc[t] == at then 1 else 0) + (if to == at then 1 else 0)
  {
    forall at
      ensures Count(Goto(s, t, to), at) == Count(s, at) - (if s.pc[t] == at then 1 else 0) + (if to == at then 1 else 0)
    {
      CountGoto(s, t, to, at);
    }
  }

  lemma {:induction false} GotoKeys(s: State, t: Thread, to: Pc)
    requires t in s.pc
    ensures Goto(s, t, to).pc.Keys == s.pc.Keys && |Goto(s, t, to).pc| == |s.pc|
  {
    assert Goto(s, t, to).pc.Keys == s.pc.Keys;
    assert |Goto(s, t, to).pc.Keys| == |s.pc.Keys|;
  }

  lemma ReadForDupKeeps(s: State, s': State, t: Thread, rc0: int)
    requires Inv(s) && ReadForDup(s, s', t, rc0)
    ensures Inv(s')
  {
    hide Count, Total;
    if rc0 > RC_STICKY {
      CountsGoto(s, t, WillDup);
      GotoKeys(s, t, WillDup);
      CountBound(s', WillDup);
    } else {
      SameCounts(s, s');
    }
  }

  lemma SameCounts(s: State, s': State)
    requires s.pc == s'.pc
    ensures forall at :: Count(s', at) == Count(s, at)
  {
  }

  lemma AtomicDupKeeps(s: State, s': State, t: Thread)
    requires Inv(s) && AtomicDup(s, s', t)
    ensures Inv(s') && s'.rc == s.rc - 1
  {
    hide Count, Total;
    CountsGoto(s, t, Idle);
    GotoKeys(s, t, Idle);
    SameCounts(Goto(s, t, Idle), s');
    CountBound(s', WillDrop);
    TotalAtLeast(s.refs, t);
    TotalUpdate(s.refs, t, s.refs[t] + 1);
  }

  lemma ReadForDropKeeps(s: State, s': State, t: Thread, rc0: int)
    requires Inv(s) && ReadForDrop(s, s', t, rc0)
    ensures Inv(s')
  {
    hide Count, Total;
    if rc0 <= RC_STICKY_DROP {
      SameCounts(s, s');
      TotalUpdate(s.refs, t, s.refs[t] - 1);
    } else {
      CountsGoto(s, t, WillDrop);
      GotoKeys(s, t, WillDrop);
    }
  }

  lemma AtomicDropKeeps(s: State, s': State, t: Thread)
    requires Inv(s) && AtomicDrop(s, s', t)
    ensures Inv(s') && s'.rc == s.rc + 1
  {
    hide Count, Total;
    var to := if s.rc == RC_SHARED_UNIQUE then WillClear else Idle;
    CountsGoto(s, t, to);
    GotoKeys(s, t, to);
    SameCounts(Goto(s, t, to), s');
    TotalAtLeast(s.refs, t);
    TotalUpdate(s.refs, t, s.refs[t] - 1);
  }

  lemma ClearAndFreeKeep(s: State, s': State, t: Thread)
    requires Inv(s) && (Clear(s, s', t) || Free(s, s', t))
    ensures Inv(s') && s.rc == 0 && s'.rc == 0
  {
    hide Count, Total;
    var to := if Clear(s, s', t) then WillFree else Idle;
    CountsGoto(s, t, to);
    GotoKeys(s, t, to);
    SameCounts(Goto(s, t, to), s');
    AtLeastOne(s, t);
  }

  lemma AtLeastOne(s: State, t: Thread)
    requires t in s.pc
    ensures Count(s, s.pc[t]) >= 1
  {
    assert t in Those(s.pc, s.pc[t]);
  }

  lemma TransferKeeps(s: State, s': State, t: Thread, u: Thread)
    requires Inv(s) && Transfer(s, s', t, u)
    ensures Inv(s')
  {
    hide Count, Total;
    SameCounts(s, s');
    var r := s.refs[t := s.refs[t] - 1];
    TotalUpdate(s.refs, t, s.refs[t] - 1);
    TotalUpdate(r, u, r[u] + 1);
  }

  lemma NextKeeps(s: State, s': State)
    requires Inv(s) && Next(s, s')
    ensures Inv(s')
  {
    hide Inv, ReadForDup, AtomicDup, ReadForDrop, AtomicDrop, Clear, Free, Transfer;
    var t :| ThreadStep(s, s', t);
    if rc0 :| ReadForDup(s, s', t, rc0) {
      ReadForDupKeeps(s, s', t, rc0);
    } else if AtomicDup(s, s', t) {
      AtomicDupKeeps(s, s', t);
    } else if rc0 :| ReadForDrop(s, s', t, rc0) {
      ReadForDropKeeps(s, s', t, rc0);
    } else if AtomicDrop(s, s', t) {
      AtomicDropKeeps(s, s', t);
    } else if Clear(s, s', t) || Free(s, s', t) {
      ClearAndFreeKeep(s, s', t);
    } else {
      var u :| Transfer(s, s', t, u);
      TransferKeeps(s, s', t, u);
    }
  }

  // ------- all runs -------

  ghost predicate IsRun(run: seq<State>) {
    run != [] && Init(run[0]) && forall i | 0 <= i < |run| - 1 :: Next(run[i], run[i + 1])
  }

  lemma {:induction false} RunInv(run: seq<State>, i: nat)
    requires IsRun(run) && i < |run|
    ensures Inv(run[i])
  {
    hide Inv, Next;
    if i == 0 {
      InitHolds(run[0]);
    } else {
      RunInv(run, i - 1);
      assert Next(run[i - 1], run[i - 1 + 1]);
      NextKeeps(run[i - 1], run[i]);
    }
  }

  ghost predicate IsEnding(s: State) {
    s.frees > 0 || exists t :: t in s.pc && (s.pc[t] == WillClear || s.pc[t] == WillFree)
  }

  /** The block is freed at most once, and whoever decides to free it does so when no reference is
      left and nobody is inside an operation on it. */
  lemma {:induction false} FreedOnlyWhenUnreferenced(run: seq<State>, i: nat)
    requires IsRun(run) && i < |run|
    ensures run[i].frees <= 1 && run[i].refs.Keys == run[i].pc.Keys
    ensures IsEnding(run[i]) ==> forall t | t in run[i].refs :: run[i].refs[t] == 0 && run[i].pc[t] != WillDup && run[i].pc[t] != WillDrop
    ensures forall t, u | t in run[i].pc && u in run[i].pc && run[i].pc[t] in {WillClear, WillFree} && run[i].pc[u] in {WillClear, WillFree} ::
      t == u && run[i].frees == 0
  {
    hide IsRun, Count, Total;
    RunInv(run, i);
    var s := run[i];
    forall t, u | t in s.pc && u in s.pc && s.pc[t] in {WillClear, WillFree} && s.pc[u] in {WillClear, WillFree}
      ensures t == u && s.frees == 0
    {
      AtLeastOne(s, t);
      AtLeastOne(s, u);
      if t != u && s.pc[t] == s.pc[u] {
        AtLeastTwo(s, t, u);
      }
    }
    if IsEnding(s) {
      if t :| t in s.pc && (s.pc[t] == WillClear || s.pc[t] == WillFree) {
        AtLeastOne(s, t);
      }
      forall t | t in s.refs
        ensures s.refs[t] == 0
      {
        TotalAtLeast(s.refs, t);
      }
    }
  }

  lemma AtLeastTwo(s: State, t: Thread, u: Thread)
    requires t in s.pc && u in s.pc && t != u && s.pc[t] == s.pc[u]
    ensures Count(s, s.pc[t]) >= 2
  {
    var a := Those(s.pc, s.pc[t]);
    Subset({t, u}, a);
    assert |{t, u}| == 2;
  }

  /** While some reference is owned the count reads as shared, so the non-atomic paths are never
      taken; and the count never wraps around. */
  lemma {:induction false} NeverReadsUnsharedNorWraps(run: seq<State>, i: nat)
    requires IsRun(run) && i < |run|
    ensures RC_STUCK < run[i].rc <= 0
    ensures forall t :: !ReadsUnshared(run[i], t)
    ensures i + 1 < |run| ==> -1 <= run[i + 1].rc - run[i].rc <= 1
  {
    hide IsRun, Count, Total;
    RunInv(run, i);
    var s := run[i];
    forall t | CanStart(s, t)
      ensures s.rc < 0
    {
      TotalAtLeast(s.refs, t);
      if s.rc == 0 {
        assert false;
      }
    }
    if i + 1 < |run| {
      RunStep(run, i);
      CountMovesByOne(s, run[i + 1]);
    }
  }

  lemma RunStep(run: seq<State>, i: nat)
    requires IsRun(run) && i + 1 < |run|
    ensures Next(run[i], run[i + 1])
  {
  }

  lemma CountMovesByOne(s: State, s': State)
    requires Inv(s) && Next(s, s')
    ensures -1 <= s'.rc - s.rc <= 1
  {
    hide Inv;
    var t :| ThreadStep(s, s', t);
    if AtomicDup(s, s', t) {
      AtomicDupKeeps(s, s', t);
    } else if AtomicDrop(s, s', t) {
      AtomicDropKeeps(s, s', t);
    } else if Clear(s, s', t) || Free(s, s', t) {
      ClearAndFreeKeep(s, s', t);
    }
  }

  lemma {:induction false} StickyStays(run: seq<State>, i: nat, j: nat)
    requires IsRun(run) && i <= j < |run| && run[i].WasSticky()
    ensures run[j].WasSticky()
  {
    hide Inv, IsRun;
    if i < j {
      StickyStays(run, i, j - 1);
      RunStep(run, j - 1);
      var t :| ThreadStep(run[j - 1], run[j], t);
    }
  }

  /** Once the count reached RC_STICKY the block is never freed again, in any continuation. */
  lemma {:induction false} NeverFreedOnceSticky(run: seq<State>, i: nat, j: nat)
    requires IsRun(run) && i <= j < |run| && run[i].rc <= RC_STICKY
    ensures run[j].frees == 0 && !IsEnding(run[j])
    ensures RC_STUCK < run[j].rc <= RC_STICKY_DROP
  {
    hide IsRun, Count, Total;
    RunInv(run, i);
    StickyStays(run, i, j);
    RunInv(run, j);
    NeverReadsUnsharedNorWraps(run, j);
    var s := run[j];
    if t :| t in s.pc && (s.pc[t] == WillClear || s.pc[t] == WillFree) {
      AtLeastOne(s, t);
      assert false;
    }
  }

  /** What leaks: when no reference is left, the block is being freed or was freed if and only if no
      drop was skipped and the count was never fully sticky. */
  lemma {:induction false} FreedWhenUnreferenced(run: seq<State>, i: nat)
    requires IsRun(run) && i < |run| && Total(run[i].refs) == 0
    ensures IsEnding(run[i]) <==> run[i].skipped == 0 && !run[i].WasSticky()
  {
    hide IsRun, Total;
    RunInv(run, i);
    var s := run[i];
    if !s.WasSticky() && s.skipped == 0 && s.frees == 0 {
      if Those(s.pc, WillClear) != {} {
        var t :| t in Those(s.pc, WillClear);
      } else {
        assert Those(s.pc, WillFree) != {};
        var t :| t in Those(s.pc, WillFree);
      }
    }
    if t :| t in s.pc && (s.pc[t] == WillClear || s.pc[t] == WillFree) {
      AtLeastOne(s, t);
    }
  }

  // ------- counts that never come near the sticky range -------

  /** The least value is one that the count had. */
  lemma {:induction false} LowWasReached(run: seq<State>, i: nat)
    requires IsRun(run) && i < |run|
    ensures exists k :: 0 <= k <= i && run[k].rc == run[i].low
  {
    if i > 0 {
      LowWasReached(run, i - 1);
      RunStep(run, i - 1);
      LowMoves(run[i - 1], run[i]);
      if run[i].low == run[i - 1].low {
        var k :| 0 <= k <= i - 1 && run[k].rc == run[i - 1].low;
        assert run[k].rc == run[i].low;
      }
    } else {
      assert run[0].rc == run[i].low;
    }
  }

  lemma LowMoves(s: State, s': State)
    requires Next(s, s')
    ensures s'.low == s.low || s'.low == s'.rc
  {
  }

  /** A drop is skipped only when the count was so low that it might be sticky. */
  lemma {:induction false} SkippedWasLow(run: seq<State>, i: nat)
    requires IsRun(run) && i < |run|
    ensures run[i].skipped > 0 ==> run[i].low <= -0x6000_0000
  {
    if i > 0 {
      SkippedWasLow(run, i - 1);
      RunStep(run, i - 1);
      SkippedMoves(run[i - 1], run[i]);
    }
  }

  lemma SkippedMoves(s: State, s': State)
    requires Next(s, s') && (s.skipped > 0 ==> s.low <= -0x6000_0000)
    ensures s'.skipped > 0 ==> s'.low <= -0x6000_0000
  {
  }

  /** As long as the count stays above -0x6000_0000, it is exactly the number of references, and once
      there are none the block is being freed or was freed: nothing leaks. */
  lemma {:induction false} ExactAndNeverLeaks(run: seq<State>, i: nat)
    requires IsRun(run) && i < |run| && forall k | 0 <= k <= i :: run[k].rc > -0x6000_0000
    ensures -run[i].rc == Total(run[i].refs)
    ensures (forall t | t in run[i].refs :: run[i].refs[t] == 0) ==> IsEnding(run[i])
  {
    hide IsRun, Total, Inv;
    LowWasReached(run, i);
    SkippedWasLow(run, i);
    RunInv(run, i);
    ExactUnlessSticky(run[i]);
    if forall t | t in run[i].refs :: run[i].refs[t] == 0 {
      NoneInTotal(run[i].refs);
      FreedWhenUnreferenced(run, i);
    }
  }

  lemma ExactUnlessSticky(s: State)
    requires Inv(s) && !s.WasSticky()
    ensures -s.rc == Total(s.refs) + s.skipped
  {
  }

  lemma {:induction false} NoneInTotal(refs: map<Thread, nat>)
    requires forall t | t in refs :: refs[t] == 0
    ensures Total(refs) == 0
    decreases |refs|
  {
    if refs != map[] {
      var t :| t in refs && Total(refs) == refs[t] + Total(refs - {t});
      NoneInTotal(refs - {t});
    }
  }
}
