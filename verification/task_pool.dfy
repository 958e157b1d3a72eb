/** A pool of tasks: a linked queue of tasks under a lock, workers that execute them, and promises that
    other threads wait for. */
module TaskPool {
  import opened Options

  type TaskId = nat
  type Val = int

  // ------- the linked queue -------

  class Task {
    var next: Task?
    const id: TaskId

    constructor (id: TaskId)
      ensures this.id == id && next == null
    {
      this.id := id;
      next := null;
    }
  }

  ghost predicate Distinct(tasks: seq<Task>) {
    forall i, j | 0 <= i < j < |tasks| :: tasks[i] != tasks[j]
  }

  function Following(tasks: seq<Task>, i: nat, end: Task?): Task? {
    if i + 1 < |tasks| then tasks[i + 1] else end
  }

  /** Each task leads to the next one, and the last one to `end`. */
  ghost predicate LinkedTo(tasks: seq<Task>, end: Task?)
    reads tasks
  {
    forall i: nat | i < |tasks| :: tasks[i].next == Following(tasks, i, end)
  }

  /** `tasks` are linked by their `next` fields, and the last one ends the list. */
  ghost predicate Linked(tasks: seq<Task>)
    reads tasks
  {
    Distinct(tasks) && LinkedTo(tasks, null)
  }

  lemma LinkedAppend(a: seq<Task>, b: seq<Task>)
    requires Distinct(a) && b != [] && LinkedTo(a, b[0]) && Linked(b) && forall t | t in b :: t !in a
    ensures Linked(a + b)
  {
    var c := a + b;
    forall i, j | 0 <= i < j < |c|
      ensures c[i] != c[j]
    {
      if i < |a| <= j {
        assert c[i] in a && c[j] in b;
      }
    }
    forall i: nat | i < |c|
      ensures c[i].next == Following(c, i, null)
    {
      if i < |a| {
        assert c[i] == a[i] && a[i].next == Following(a, i, b[0]);
      } else {
        assert c[i] == b[i - |a|] && b[i - |a|].next == Following(b, i - |a|, null);
      }
    }
  }

  lemma LinkedTail(a: seq<Task>)
    requires Linked(a) && a != []
    ensures Linked(a[1..])
  {
    var b := a[1..];
    forall i: nat | i < |b|
      ensures b[i].next == Following(b, i, null)
    {
      assert b[i] == a[i + 1] && a[i + 1].next == Following(a, i + 1, null);
    }
  }

  class TaskQueue {
    var tasks: Task?
    var tasksTail: Task?
    ghost var queue: seq<Task>

    ghost predicate Valid()
      reads this, queue
    {
      && Linked(queue)
      && tasks == (if queue == [] then null else queue[0])
      && tasksTail == (if queue == [] then null else queue[|queue| - 1])
    }

    constructor ()
      ensures Valid() && queue == []
    {
      tasks, tasksTail, queue := null, null, [];
    }

    /** Append the linked tasks from `head` to `tail`. */
    method EnqueueN(head: Task, tail: Task, ghost chain: seq<Task>)
      requires Valid() && chain != [] && chain[0] == head && chain[|chain| - 1] == tail && Linked(chain)
      requires forall t | t in chain :: t !in queue
      modifies this, queue
      ensures Valid() && queue == old(queue) + chain
      ensures forall t | t in chain :: unchanged(t)
    {
      assert queue != [] ==> tasksTail in queue;
      assert forall i | 0 <= i < |chain| :: chain[i] in chain;
      if tasksTail != null {
        tasksTail.next := head;
      } else {
        tasks := head;
      }
      tasksTail := tail;
      LinkedAppend(queue, chain);
      queue := queue + chain;
    }

    method Enqueue(task: Task)
      requires Valid() && task !in queue && task.next == null
      modifies this, queue
      ensures Valid() && queue == old(queue) + [task]
    {
      EnqueueN(task, task, [task]);
    }

    /** Take the first task, if there is one. */
    method Dequeue() returns (task: Task?)
      requires Valid()
      modifies this
      ensures Valid()
      ensures old(queue) == [] ==> task == null && queue == []
      ensures old(queue) != [] ==> task == old(queue)[0] && queue == old(queue)[1..]
    {
      task := tasks;
      if task != null {
        tasks := task.next;
        if tasks == null {
          tasksTail := null;
        }
        LinkedTail(queue);
        assert queue[0].next == Following(queue, 0, null);
        queue := queue[1..];
      }
    }
  }

  // ------- the pool as a state machine -------

  /** What has become of a task: in the queue, being executed, executed with result `v`, its promise
      set but the waiter not yet signalled, or all done. */
  datatype Phase = Queued | Running | Returned(v: Val) | Signalling(v: Val) | Done(v: Val)

  /** A call that waits for the promise of task `id`: about to look at the promise, about to execute
      another task instead of waiting, about to look again, asleep, or returned. */
  datatype Get = Getting(id: TaskId) | Helping(id: TaskId) | Rechecking(id: TaskId) | Sleeping(id: TaskId) | Got(id: TaskId, v: Val)

  type GetId = nat

  /** `scheduled` and `dequeued` are histories, `runs` and `sets` count executions and assignments. */
  datatype State = State(scheduled: seq<TaskId>, dequeued: seq<TaskId>, queue: seq<TaskId>, phase: map<TaskId, Phase>,
                         runs: map<TaskId, nat>, result: map<TaskId, Option<Val>>, sets: map<TaskId, nat>, gets: map<GetId, Get>)

  predicate At(s: State, id: TaskId, p: Phase) {
    id in s.phase && s.phase[id] == p
  }

  predicate GetAt(s: State, g: GetId, p: Get) {
    g in s.gets && s.gets[g] == p
  }

  function Goto(s: State, g: GetId, p: Get): State {
    s.(gets := s.gets[g := p])
  }

  ghost predicate Schedule(s: State, s': State, id: TaskId) {
    && id !in s.phase
    && s' == s.(scheduled := s.scheduled + [id], queue := s.queue + [id], phase := s.phase[id := Queued],
                runs := s.runs[id := 0], result := s.result[id := None], sets := s.sets[id := 0])
  }

  /** The first task leaves the queue, to be executed. */
  function Dequeued(s: State): State
    requires s.queue != [] && s.queue[0] in s.runs
  {
    var id := s.queue[0];
    s.(queue := s.queue[1..], dequeued := s.dequeued + [id], phase := s.phase[id := Running], runs := s.runs[id := s.runs[id] + 1])
  }

  ghost predicate Work(s: State, s': State) {
    s.queue != [] && s.queue[0] in s.runs && s' == Dequeued(s)
  }

  ghost predicate Return(s: State, s': State, id: TaskId, v: Val) {
    At(s, id, Running) && s' == s.(phase := s.phase[id := Returned(v)])
  }

  ghost predicate SetPromise(s: State, s': State, id: TaskId, v: Val) {
    && At(s, id, Returned(v)) && id in s.sets
    && s' == s.(phase := s.phase[id := Signalling(v)], result := s.result[id := Some(v)], sets := s.sets[id := s.sets[id] + 1])
  }

  /** A signal wakes a waiter if there is one; it may wake others too. */
  ghost predicate Signal(s: State, s': State, id: TaskId, v: Val, woken: set<GetId>) {
    && At(s, id, Signalling(v))
    && (forall g: GetId | g in woken :: GetAt(s, g, Sleeping(id)))
    && (woken == {} ==> forall g: GetId :: !GetAt(s, g, Sleeping(id)))
    && s' == s.(phase := s.phase[id := Done(v)], gets := map g | g in s.gets :: if g in woken then Getting(id) else s.gets[g])
  }

  ghost predicate StartGet(s: State, s': State, g: GetId, id: TaskId) {
    g !in s.gets && id in s.phase && s' == Goto(s, g, Getting(id))
  }

  /** Under the lock of the promise; a thread that is not part of the pool goes to sleep at once. */
  ghost predicate Check(s: State, s': State, g: GetId, id: TaskId) {
    && GetAt(s, g, Getting(id)) && id in s.result
    && if s.result[id].Some? then s' == Goto(s, g, Got(id, s.result[id].value))
       else s' == Goto(s, g, Helping(id)) || s' == Goto(s, g, Sleeping(id))
  }

  ghost predicate Help(s: State, s': State, g: GetId, id: TaskId) {
    && GetAt(s, g, Helping(id))
    && if s.queue == [] then s' == Goto(s, g, Rechecking(id))
       else s.queue[0] in s.runs && s' == Goto(Dequeued(s), g, Getting(id))
  }

  ghost predicate Recheck(s: State, s': State, g: GetId, id: TaskId) {
    && GetAt(s, g, Rechecking(id)) && id in s.result
    && s' == Goto(s, g, if s.result[id].None? then Sleeping(id) else Getting(id))
  }

  /** Waiting may also end without a signal. */
  ghost predicate Wake(s: State, s': State, g: GetId, id: TaskId) {
    GetAt(s, g, Sleeping(id)) && s' == Goto(s, g, Getting(id))
  }

  ghost predicate TaskStep(s: State, s': State) {
    || (exists id: TaskId :: Schedule(s, s', id)) || Work(s, s')
    || (exists id: TaskId, v :: Return(s, s', id, v)) || (exists id: TaskId, v :: SetPromise(s, s', id, v))
    || (exists id: TaskId, v, woken :: Signal(s, s', id, v, woken))
  }

  ghost predicate GetStep(s: State, s': State, g: GetId, id: TaskId) {
    StartGet(s, s', g, id) || Check(s, s', g, id) || Help(s, s', g, id) || Recheck(s, s', g, id) || Wake(s, s', g, id)
  }

  ghost predicate Next(s: State, s': State) {
    TaskStep(s, s') || exists g: GetId, id: TaskId :: GetStep(s, s', g, id)
  }

  ghost predicate Init(s: State) {
    s == State([], [], [], map[], map[], map[], map[], map[])
  }

  // ------- what every step keeps -------

  /** What holds for a task in a phase: when it was executed, and whether its promise is set. */
  predicate PhaseInv(s: State, id: TaskId, p: Phase) {
    && id in s.runs && id in s.result && id in s.sets
    && s.runs[id] == (if p.Queued? then 0 else 1)
    && s.result[id] == (if p.Signalling? || p.Done? then Some(p.v) else None)
    && s.sets[id] == (if p.Signalling? || p.Done? then 1 else 0)
  }

  predicate GetInv(s: State, p: Get) {
    p.id in s.phase && p.id in s.result && (p.Got? ==> s.result[p.id] == Some(p.v))
  }

  ghost predicate Inv(s: State) {
    && s.scheduled == s.dequeued + s.queue
    && (forall i, j | 0 <= i < j < |s.scheduled| :: s.scheduled[i] != s.scheduled[j])
    && (forall i | 0 <= i < |s.scheduled| :: s.scheduled[i] in s.phase)
    && (forall i | 0 <= i < |s.queue| :: s.queue[i] in s.phase && s.phase[s.queue[i]] == Queued)
    && (forall i | 0 <= i < |s.dequeued| :: s.dequeued[i] in s.phase && s.phase[s.dequeued[i]] != Queued)
    && (forall id: TaskId | id in s.phase :: PhaseInv(s, id, s.phase[id]))
    && (forall g: GetId | g in s.gets :: GetInv(s, s.gets[g]))
  }

  lemma ScheduleKeeps(s: State, s': State, id: TaskId)
    requires Inv(s) && Schedule(s, s', id)
    ensures Inv(s')
  {
  }

  lemma DequeuedKeeps(s: State)
    requires Inv(s) && s.queue != []
    ensures s.queue[0] in s.runs && Inv(Dequeued(s))
  {
    var id := s.queue[0];
    assert PhaseInv(s, id, s.phase[id]);
    var t := Dequeued(s);
    assert s.scheduled == t.dequeued + t.queue;
    forall i | 0 <= i < |t.queue|
      ensures t.queue[i] in t.phase && t.phase[t.queue[i]] == Queued
    {
      assert t.queue[i] == s.queue[i + 1] == s.scheduled[|s.dequeued| + i + 1] && id == s.scheduled[|s.dequeued|];
    }
  }

  lemma ReturnKeeps(s: State, s': State, id: TaskId, v: Val)
    requires Inv(s) && Return(s, s', id, v)
    ensures Inv(s')
  {
  }

  lemma SetPromiseKeeps(s: State, s': State, id: TaskId, v: Val)
    requires Inv(s) && SetPromise(s, s', id, v)
    ensures Inv(s')
  {
  }

  lemma SignalKeeps(s: State, s': State, id: TaskId, v: Val, woken: set<GetId>)
    requires Inv(s) && Signal(s, s', id, v, woken)
    ensures Inv(s')
  {
  }

  lemma HelpKeeps(s: State, s': State, g: GetId, id: TaskId)
    requires Inv(s) && Help(s, s', g, id)
    ensures Inv(s')
  {
    if s.queue != [] {
      DequeuedKeeps(s);
      assert GetInv(s, s.gets[g]);
    }
  }

  lemma StartGetKeeps(s: State, s': State, g: GetId, id: TaskId)
    requires Inv(s) && StartGet(s, s', g, id)
    ensures Inv(s')
  {
    assert PhaseInv(s, id, s.phase[id]);
  }

  lemma CheckKeeps(s: State, s': State, g: GetId, id: TaskId)
    requires Inv(s) && Check(s, s', g, id)
    ensures Inv(s')
  {
  }

  lemma RecheckKeeps(s: State, s': State, g: GetId, id: TaskId)
    requires Inv(s) && Recheck(s, s', g, id)
    ensures Inv(s')
  {
  }

  lemma WakeKeeps(s: State, s': State, g: GetId, id: TaskId)
    requires Inv(s) && Wake(s, s', g, id)
    ensures Inv(s')
  {
  }

  lemma NextKeeps(s: State, s': State)
    requires Inv(s) && Next(s, s')
    ensures Inv(s')
  {
    hide Inv, Schedule, Work, Return, SetPromise, Signal, StartGet, Check, Help, Recheck, Wake;
    if id: TaskId :| Schedule(s, s', id) {
      ScheduleKeeps(s, s', id);
    } else if Work(s, s') {
      WorkKeeps(s, s');
    } else if id: TaskId, v :| Return(s, s', id, v) {
      ReturnKeeps(s, s', id, v);
    } else if id: TaskId, v :| SetPromise(s, s', id, v) {
      SetPromiseKeeps(s, s', id, v);
    } else if id: TaskId, v, woken :| Signal(s, s', id, v, woken) {
      SignalKeeps(s, s', id, v, woken);
    } else {
      var g: GetId, id: TaskId :| GetStep(s, s', g, id);
      GetStepKeeps(s, s', g, id);
    }
  }

  lemma WorkKeeps(s: State, s': State)
    requires Inv(s) && Work(s, s')
    ensures Inv(s')
  {
    DequeuedKeeps(s);
  }

  lemma GetStepKeeps(s: State, s': State, g: GetId, id: TaskId)
    requires Inv(s) && GetStep(s, s', g, id)
    ensures Inv(s')
  {
    hide Inv, StartGet, Check, Help, Recheck, Wake;
    if StartGet(s, s', g, id) {
      StartGetKeeps(s, s', g, id);
    } else if Check(s, s', g, id) {
      CheckKeeps(s, s', g, id);
    } else if Help(s, s', g, id) {
      HelpKeeps(s, s', g, id);
    } else if Recheck(s, s', g, id) {
      RecheckKeeps(s, s', g, id);
    } else {
      WakeKeeps(s, s', g, id);
    }
  }

  // ------- the linked queue does these steps -------

  function Ids(tasks: seq<Task>): seq<TaskId> {
    seq(|tasks|, i requires 0 <= i < |tasks| => tasks[i].id)
  }

  /** The queue of the pool, with the state of the pool as its specification. */
  class TaskGroup {
    const tasks: TaskQueue
    ghost var s: State

    ghost predicate Valid()
      reads this, tasks, tasks.queue
    {
      tasks.Valid() && Inv(s) && s.queue == Ids(tasks.queue)
    }

    constructor ()
      ensures Valid() && Init(s) && fresh(tasks)
    {
      tasks := new TaskQueue();
      s := State([], [], [], map[], map[], map[], map[], map[]);
    }

    /** Scheduling a new task is appending it to the linked queue. */
    method ScheduleTask(task: Task)
      requires Valid() && task.id !in s.phase && task.next == null
      modifies this, tasks, tasks.queue
      ensures Valid() && Schedule(old(s), s, task.id) && tasks.queue == old(tasks.queue) + [task]
    {
      hide Inv;
      ghost var id, s0 := task.id, s;
      NotQueued(s, tasks.queue, task);
      tasks.Enqueue(task);
      s := s.(scheduled := s.scheduled + [id], queue := s.queue + [id], phase := s.phase[id := Queued],
              runs := s.runs[id := 0], result := s.result[id := None], sets := s.sets[id := 0]);
      ScheduleKeeps(s0, s, id);
      assert Ids(tasks.queue) == s.queue;
    }

    /** A worker gets the first task of the state's queue, and none if that is empty. */
    method NextTask() returns (task: Task?)
      requires Valid()
      modifies this, tasks
      ensures Valid()
      ensures old(s).queue == [] ==> task == null && s == old(s)
      ensures old(s).queue != [] ==> task != null && task.id == old(s).queue[0] && Work(old(s), s)
    {
      hide Inv;
      task := tasks.Dequeue();
      if task != null {
        DequeuedKeeps(s);
        s := Dequeued(s);
      }
      assert Ids(tasks.queue) == s.queue;
    }
  }

  lemma NotQueued(s: State, queue: seq<Task>, task: Task)
    requires Inv(s) && s.queue == Ids(queue) && task.id !in s.phase
    ensures task !in queue
  {
    forall i | 0 <= i < |queue|
      ensures queue[i] != task
    {
      assert s.queue[i] == queue[i].id;
    }
  }

  // ------- waiting -------

  /** Only one call waits for each promise. */
  ghost predicate OneGetter(s: State) {
    forall g: GetId, g': GetId | g in s.gets && g' in s.gets && s.gets[g].id == s.gets[g'].id :: g == g'
  }

  /** No call sleeps on a promise that is set and signalled. */
  ghost predicate NoneForgotten(s: State) {
    forall g: GetId | g in s.gets && s.gets[g].Sleeping? && s.gets[g].id in s.phase :: !s.phase[s.gets[g].id].Done?
  }

  /** At most one call sleeps on the promise of task `id`. */
  ghost predicate OneSleeper(s: State, id: TaskId) {
    forall g: GetId, g': GetId | GetAt(s, g, Sleeping(id)) && GetAt(s, g', Sleeping(id)) :: g == g'
  }

  /** Only promises with at most one sleeper are about to be signalled. */
  ghost predicate OneSleeperEach(s: State) {
    forall id: TaskId | id in s.phase && s.phase[id].Signalling? :: OneSleeper(s, id)
  }

  lemma OneGetterSleepsAlone(s: State)
    requires OneGetter(s)
    ensures OneSleeperEach(s)
  {
  }

  /** A signal can be relied on not to leave anybody asleep if and only if at most one call sleeps. */
  lemma {:induction false} SignalForgetsNoneIff(s: State, id: TaskId, v: Val)
    requires Inv(s) && NoneForgotten(s) && At(s, id, Signalling(v))
    ensures (forall s', woken | Signal(s, s', id, v, woken) :: NoneForgotten(s')) <==> OneSleeper(s, id)
  {
    hide Inv;
    if OneSleeper(s, id) {
      forall s', woken | Signal(s, s', id, v, woken)
        ensures NoneForgotten(s')
      {
        SignalForgetsNone(s, s', id, v, woken);
      }
    } else {
      var g: GetId, g': GetId :| GetAt(s, g, Sleeping(id)) && GetAt(s, g', Sleeping(id)) && g != g';
      var s' := s.(phase := s.phase[id := Done(v)], gets := map h | h in s.gets :: if h in {g} then Getting(id) else s.gets[h]);
      assert Signal(s, s', id, v, {g});
      assert GetAt(s', g', Sleeping(id));
    }
  }

  lemma SignalForgetsNone(s: State, s': State, id: TaskId, v: Val, woken: set<GetId>)
    requires NoneForgotten(s) && OneSleeper(s, id) && Signal(s, s', id, v, woken)
    ensures NoneForgotten(s')
  {
    forall g: GetId | GetAt(s, g, Sleeping(id))
      ensures g in woken
    {
      assert woken != {};
      var g': GetId :| g' in woken;
      assert GetAt(s, g', Sleeping(id));
    }
  }

  /** A call goes to sleep only on a promise that is not set. */
  lemma SleepsOnUnset(s: State, s': State, g: GetId, id: TaskId)
    requires Inv(s) && NoneForgotten(s) && GetStep(s, s', g, id)
    ensures NoneForgotten(s')
  {
    hide PhaseInv;
    if Help(s, s', g, id) && s.queue != [] {
      assert s.phase[s.queue[0]] == Queued;
    }
    if id in s.phase {
      UnsetNotDone(s, id);
    }
  }

  lemma UnsetNotDone(s: State, id: TaskId)
    requires Inv(s) && id in s.phase
    ensures id in s.result && (s.result[id].None? ==> !s.phase[id].Done?)
  {
    assert PhaseInv(s, id, s.phase[id]);
  }

  lemma WorkForgetsNone(s: State, s': State)
    requires Inv(s) && NoneForgotten(s) && Work(s, s')
    ensures NoneForgotten(s')
  {
    hide PhaseInv, GetInv;
    assert s.phase[s.queue[0]] == Queued;
  }

  lemma OtherForgetsNone(s: State, s': State, id: TaskId, v: Val)
    requires Inv(s) && NoneForgotten(s) && (Schedule(s, s', id) || Return(s, s', id, v) || SetPromise(s, s', id, v))
    ensures NoneForgotten(s')
  {
    hide PhaseInv;
    assert forall g: GetId | g in s.gets :: GetInv(s, s.gets[g]);
  }

  lemma TaskStepForgetsNone(s: State, s': State)
    requires Inv(s) && OneSleeperEach(s) && NoneForgotten(s) && TaskStep(s, s')
    ensures NoneForgotten(s')
  {
    hide Inv, OneSleeper, NoneForgotten, Schedule, Work, Return, SetPromise, Signal;
    if id: TaskId :| Schedule(s, s', id) {
      OtherForgetsNone(s, s', id, 0);
    } else if Work(s, s') {
      WorkForgetsNone(s, s');
    } else if id: TaskId, v :| Return(s, s', id, v) {
      OtherForgetsNone(s, s', id, v);
    } else if id: TaskId, v :| SetPromise(s, s', id, v) {
      OtherForgetsNone(s, s', id, v);
    } else {
      var id: TaskId, v, woken :| Signal(s, s', id, v, woken);
      Signals(s, s', id, v, woken);
      SignalForgetsNone(s, s', id, v, woken);
    }
  }

  lemma Signals(s: State, s': State, id: TaskId, v: Val, woken: set<GetId>)
    requires Signal(s, s', id, v, woken)
    ensures id in s.phase && s.phase[id].Signalling?
  {
  }

  // ------- whole runs -------

  ghost predicate Run(states: seq<State>) {
    && states != [] && Init(states[0])
    && forall i | 0 <= i < |states| - 1 :: Next(states[i], states[i + 1])
  }

  lemma {:induction false} RunKeeps(states: seq<State>, i: nat)
    requires Run(states) && i < |states|
    ensures Inv(states[i])
  {
    if i > 0 {
      RunKeeps(states, i - 1);
      NextKeeps(states[i - 1], states[i]);
    }
  }

  /** Tasks leave the queue in the order in which they were scheduled. */
  lemma {:induction false} FirstInFirstOut(states: seq<State>, i: nat)
    requires Run(states) && i < |states|
    ensures states[i].dequeued <= states[i].scheduled
    ensures forall j, k | 0 <= j < k < |states[i].scheduled| :: states[i].scheduled[j] != states[i].scheduled[k]
  {
    RunKeeps(states, i);
  }

  /** A task is executed at most once, and only after it has left the queue; its promise is set at
      most once, to what that execution returned. */
  lemma {:induction false} ExecutedOnce(states: seq<State>, i: nat, id: TaskId)
    requires Run(states) && i < |states| && id in states[i].phase
    ensures var s := states[i];
      && id in s.runs && id in s.sets && id in s.result && s.runs[id] <= 1 && s.sets[id] <= s.runs[id]
      && (id in s.dequeued ==> s.runs[id] == 1)
      && (s.result[id].Some? ==> At(s, id, Signalling(s.result[id].value)) || At(s, id, Done(s.result[id].value)))
      && (s.result[id].None? <==> s.sets[id] == 0)
  {
    RunKeeps(states, i);
    assert PhaseInv(states[i], id, states[i].phase[id]);
  }

  ghost predicate HasResult(s: State, id: TaskId, v: Val) {
    id in s.phase && id in s.result && s.result[id] == Some(v)
  }

  lemma DequeuedKeepsResult(s: State, id: TaskId, v: Val)
    requires Inv(s) && s.queue != [] && HasResult(s, id, v)
    ensures s.queue[0] in s.runs && HasResult(Dequeued(s), id, v)
  {
    assert PhaseInv(s, s.queue[0], s.phase[s.queue[0]]);
  }

  /** A promise that is set keeps its result. */
  lemma {:induction false} NextKeepsResult(s: State, s': State, id: TaskId, v: Val)
    requires Inv(s) && Next(s, s') && HasResult(s, id, v)
    ensures HasResult(s', id, v)
  {
    hide Inv, Dequeued;
    ResultPhase(s, id, v);
    if s.queue != [] {
      DequeuedKeepsResult(s, id, v);
    }
  }

  lemma ResultPhase(s: State, id: TaskId, v: Val)
    requires Inv(s) && HasResult(s, id, v)
    ensures s.phase[id] == Signalling(v) || s.phase[id] == Done(v)
  {
    assert PhaseInv(s, id, s.phase[id]);
  }

  lemma {:induction false} PromiseIsStable(states: seq<State>, i: nat, j: nat, id: TaskId, v: Val)
    requires Run(states) && i <= j < |states| && HasResult(states[i], id, v)
    ensures HasResult(states[j], id, v)
  {
    if i < j {
      PromiseIsStable(states, i, j - 1, id, v);
      RunKeeps(states, j - 1);
      NextKeepsResult(states[j - 1], states[j], id, v);
    }
  }

  /** Waiting for a promise gives the result of its task. */
  lemma {:induction false} GetReturnsResult(states: seq<State>, i: nat, g: GetId, id: TaskId, v: Val)
    requires Run(states) && i < |states| && GetAt(states[i], g, Got(id, v))
    ensures At(states[i], id, Signalling(v)) || At(states[i], id, Done(v))
  {
    RunKeeps(states, i);
    assert GetInv(states[i], states[i].gets[g]);
    assert PhaseInv(states[i], id, states[i].phase[id]);
  }

  /** What a task returned stays with it until its promise is set to that. */
  predicate PhaseValue(p: Phase, v: Val) {
    (p.Returned? || p.Signalling? || p.Done?) && p.v == v
  }

  lemma ValueStays(s: State, s': State, id: TaskId, v: Val)
    requires Inv(s) && Next(s, s') && id in s'.phase && PhaseValue(s'.phase[id], v)
    ensures (id in s.phase && PhaseValue(s.phase[id], v)) || Return(s, s', id, v)
  {
    hide PhaseInv, GetInv, GetStep, TaskStep;
    if TaskStep(s, s') {
      TaskValueStays(s, s', id, v);
    } else {
      var g: GetId, other: TaskId :| GetStep(s, s', g, other);
      GetValueStays(s, s', g, other, id, v);
    }
  }

  lemma TaskValueStays(s: State, s': State, id: TaskId, v: Val)
    requires Inv(s) && TaskStep(s, s') && id in s'.phase && PhaseValue(s'.phase[id], v)
    ensures (id in s.phase && PhaseValue(s.phase[id], v)) || Return(s, s', id, v)
  {
    hide Inv;
  }

  lemma GetValueStays(s: State, s': State, g: GetId, other: TaskId, id: TaskId, v: Val)
    requires GetStep(s, s', g, other) && id in s'.phase && PhaseValue(s'.phase[id], v)
    ensures id in s.phase && PhaseValue(s.phase[id], v)
  {
  }

  /** The result of a promise is what the one execution of its task returned. */
  lemma {:induction false} ResultWasReturned(states: seq<State>, i: nat, id: TaskId, v: Val)
    requires Run(states) && i < |states| && id in states[i].phase
    requires HasResult(states[i], id, v) || PhaseValue(states[i].phase[id], v)
    ensures exists k :: 0 <= k < i && Return(states[k], states[k + 1], id, v)
  {
    hide Next, Return;
    RunKeeps(states, i);
    assert PhaseInv(states[i], id, states[i].phase[id]);
    if i > 0 {
      RunKeeps(states, i - 1);
      ValueStays(states[i - 1], states[i], id, v);
      if !Return(states[i - 1], states[i], id, v) {
        ResultWasReturned(states, i - 1, id, v);
      } else {
        assert states[i - 1 + 1] == states[i];
      }
    }
  }

  /** And so waiting gives what its task returned. */
  lemma {:induction false} GetReturnsReturned(states: seq<State>, i: nat, g: GetId, id: TaskId, v: Val)
    requires Run(states) && i < |states| && GetAt(states[i], g, Got(id, v))
    ensures exists k :: 0 <= k < i && Return(states[k], states[k + 1], id, v)
  {
    hide Next, Return;
    GetReturnsResult(states, i, g, id, v);
    ResultWasReturned(states, i, id, v);
  }

  /** As long as at most one call sleeps on a promise when it is signalled, in particular when only one
      call waits for each promise, none of them sleeps on after the signal. */
  lemma {:induction false} NobodyForgotten(states: seq<State>, i: nat)
    requires Run(states) && i < |states| && forall k | 0 <= k < i :: OneSleeperEach(states[k])
    ensures NoneForgotten(states[i])
  {
    if i > 0 {
      NobodyForgotten(states, i - 1);
      RunKeeps(states, i - 1);
      var s, s' := states[i - 1], states[i];
      assert Next(s, s');
      if TaskStep(s, s') {
        TaskStepForgetsNone(s, s');
      } else {
        var g: GetId, id: TaskId :| GetStep(s, s', g, id);
        SleepsOnUnset(s, s', g, id);
      }
    }
  }

  /** The states with the single task 0, in phase `p`. */
  function Single(p: Phase, gets: map<GetId, Get>): State {
    var set' := p.Signalling? || p.Done?;
    State([0], if p.Queued? then [] else [0], if p.Queued? then [0] else [], map[0 := p], map[0 := if p.Queued? then 0 else 1],
          map[0 := if set' then Some(p.v) else None], map[0 := if set' then 1 else 0], gets)
  }

  lemma SingleSteps(gets: map<GetId, Get>, v: Val)
    ensures Next(Single(Queued, gets), Single(Running, gets))
    ensures Next(Single(Running, gets), Single(Returned(v), gets))
    ensures Next(Single(Returned(v), gets), Single(Signalling(v), gets))
  {
    hide GetStep, Schedule, Signal;
    assert Work(Single(Queued, gets), Single(Running, gets));
    assert Return(Single(Running, gets), Single(Returned(v), gets), 0, v);
    assert SetPromise(Single(Returned(v), gets), Single(Signalling(v), gets), 0, v);
  }

  lemma SingleStart()
    ensures Next(State([], [], [], map[], map[], map[], map[], map[]), Single(Queued, map[]))
  {
    hide GetStep, Signal, Return, SetPromise, Work;
    assert Schedule(State([], [], [], map[], map[], map[], map[], map[]), Single(Queued, map[]), 0);
  }

  lemma SingleWaits(gets: map<GetId, Get>, g: GetId)
    ensures g !in gets ==> Next(Single(Queued, gets), Single(Queued, gets[g := Getting(0)]))
    ensures g in gets && gets[g] == Getting(0) ==> Next(Single(Queued, gets), Single(Queued, gets[g := Sleeping(0)]))
  {
    hide TaskStep;
    var s := Single(Queued, gets);
    if g !in gets {
      assert GetStep(s, Single(Queued, gets[g := Getting(0)]), g, 0);
    } else if gets[g] == Getting(0) {
      assert Check(s, Single(Queued, gets[g := Sleeping(0)]), g, 0);
      assert GetStep(s, Single(Queued, gets[g := Sleeping(0)]), g, 0);
    }
  }

  /** A run in which two calls go to sleep on the promise of task 0, which is executed, set and
      signalled; the signal wakes the first of them only. */
  function Forgetting(): seq<State> {
    var both: map<GetId, Get> := map[0 := Sleeping(0), 1 := Sleeping(0)];
    [State([], [], [], map[], map[], map[], map[], map[]), Single(Queued, map[]),
     Single(Queued, map[0 := Getting(0)]), Single(Queued, map[0 := Sleeping(0)]),
     Single(Queued, map[0 := Sleeping(0), 1 := Getting(0)]), Single(Queued, both),
     Single(Running, both), Single(Returned(7), both), Single(Signalling(7), both),
     Single(Done(7), map[0 := Getting(0), 1 := Sleeping(0)])]
  }

  lemma ForgettingWaits()
    ensures forall k | 1 <= k < 5 :: Next(Forgetting()[k], Forgetting()[k + 1])
  {
    hide Next, Single;
    SingleWaits(map[], 0);
    SingleWaits(map[0 := Getting(0)], 0);
    SingleWaits(map[0 := Sleeping(0)], 1);
    SingleWaits(map[0 := Sleeping(0), 1 := Getting(0)], 1);
    var a: map<GetId, Get> := map[];
    assert a[0 := Getting(0)] == map[0 := Getting(0)];
    var b: map<GetId, Get> := map[0 := Getting(0)];
    assert b[0 := Sleeping(0)] == map[0 := Sleeping(0)];
    var c: map<GetId, Get> := map[0 := Sleeping(0)];
    assert c[1 := Getting(0)] == map[0 := Sleeping(0), 1 := Getting(0)];
    var d: map<GetId, Get> := map[0 := Sleeping(0), 1 := Getting(0)];
    assert d[1 := Sleeping(0)] == map[0 := Sleeping(0), 1 := Sleeping(0)];
  }

  lemma ForgettingSignals()
    ensures Next(Forgetting()[8], Forgetting()[9])
  {
    hide GetStep, Schedule, Return, SetPromise, Work;
    var s, s' := Forgetting()[8], Forgetting()[9];
    assert s'.gets == map h | h in s.gets :: if h in {0} then Getting(0) else s.gets[h];
    assert Signal(s, s', 0, 7, {0});
  }

  lemma ForgettingForgets()
    ensures !OneSleeper(Forgetting()[8], 0) && !NoneForgotten(Forgetting()[9])
  {
    var s, s' := Forgetting()[8], Forgetting()[9];
    assert GetAt(s, 0, Sleeping(0)) && GetAt(s, 1, Sleeping(0)) && GetAt(s', 1, Sleeping(0));
  }

  /** Two sleepers on one promise do occur, and then one of them may sleep on after the signal. */
  lemma {:induction false} SecondMayBeForgotten()
    ensures Run(Forgetting()) && |Forgetting()| == 10
    ensures !OneSleeper(Forgetting()[8], 0) && !NoneForgotten(Forgetting()[9])
  {
    hide Next, Single, OneSleeper, NoneForgotten;
    SingleStart();
    SingleSteps(map[0 := Sleeping(0), 1 := Sleeping(0)], 7);
    ForgettingWaits();
    ForgettingSignals();
    ForgettingForgets();
  }
}
