/** Yielding to a handler: the bounded buffer of continuations registered on the way up, their
    composition into a resumption, and running such a composition. */
module Yielding {

  type Val = int
  type Marker = int

  /** KK_YIELD_CONT_MAX */
  const CONT_MAX: nat := 8

  /** Function values: compiled code, the identity, a composition of continuations, a function
      applied to the continuation below it, and what a final yield leaves as its resumption. */
  datatype Fun =
    | Prim(id: nat)
    | Id
    | Kcompose(conts: seq<Fun>)
    | ContApply(f: nat, cont: Fun)
    | FatalResume

  // ------- what a function value stands for -------

  /** A continuation that is not itself a composition. */
  datatype Flat = FlatPrim(id: nat) | FlatApply(f: nat, cont: seq<Flat>) | FlatFatal

  /** The continuations that a function value runs, in order. */
  function Flatten(f: Fun): seq<Flat> {
    match f
    case Prim(id) => [FlatPrim(id)]
    case Id => []
    case Kcompose(conts) => FlattenAll(conts)
    case ContApply(g, cont) => [FlatApply(g, Flatten(cont))]
    case FatalResume => [FlatFatal]
  }

  function FlattenAll(conts: seq<Fun>): seq<Flat> {
    if conts == [] then [] else Flatten(conts[0]) + FlattenAll(conts[1..])
  }

  lemma {:induction false} FlattenAppend(s: seq<Fun>, t: seq<Fun>)
    ensures FlattenAll(s + t) == FlattenAll(s) + FlattenAll(t)
  {
    if s == [] {
      assert s + t == t;
    } else {
      assert (s + t)[1..] == s[1..] + t;
      FlattenAppend(s[1..], t);
    }
  }

  lemma FlattenOne(f: Fun)
    ensures FlattenAll([f]) == Flatten(f)
  {
    assert FlattenAll([f][1..]) == [];
  }

  // ------- compiled code -------

  /** A piece of compiled code: a function, one that gets a continuation as well, or the failure that a
      final yield leaves as its resumption. */
  datatype Name = Function(id: nat) | Applied(f: nat) | Failure

  /** What compiled code does to the context while it unwinds after yielding: register a function, or
      code together with the continuation that it was given, or call `kk_yield_cont`. */
  datatype Action = Extend(next: Fun) | Close(g: nat) | Cont(f: nat)

  /** A call of compiled code returns a value, or yields and then unwinds, or calls the continuation
      that it was given, to go on with the result, or to unwind if that call yields. */
  datatype Script =
    | Value(x: Val)
    | YieldTo(marker: Marker, clause: nat, final: bool, actions: seq<Action>)
    | Resume(x: Val, actions: seq<Action>)

  /** What compiled code does next, given its argument and the results of the calls of its continuation
      so far; and a bound for the number of these calls. */
  datatype Program = Program(next: (Name, Val, seq<Val>) -> Script, calls: (Name, Val) -> nat)

  ghost predicate Terminates(p: Program) {
    forall name, x, results :: p.next(name, x, results).Resume? ==> |results| < p.calls(name, x)
  }

  type Code = p: Program | Terminates(p) witness Program((_, x, _) => Value(x), (_, _) => 0)

  // ------- running continuations one after the other -------

  /** How running a continuation ends: with a value, or yielding to the handler with `marker` with
      the continuations `conts` still to be run when it resumes. A final yield never resumes. */
  datatype Outcome = Return(x: Val) | Yield(marker: Marker, clause: nat, final: bool, conts: seq<Flat>)

  function FunSize(f: Fun): nat {
    match f
    case ContApply(_, cont) => 1 + FunSize(cont)
    case Kcompose(conts) => 1 + FunSizes(conts)
    case Id => 0
    case _ => 1
  }

  function FunSizes(fs: seq<Fun>): nat {
    if fs == [] then 0 else FunSize(fs[0]) + FunSizes(fs[1..])
  }

  lemma {:induction false} FunSizeIn(fs: seq<Fun>, i: nat)
    requires i < |fs|
    ensures FunSize(fs[i]) <= FunSizes(fs)
  {
    if i > 0 {
      FunSizeIn(fs[1..], i - 1);
    }
  }

  function NameOf(f: Flat): Name {
    match f
    case FlatPrim(id) => Function(id)
    case FlatApply(g, _) => Applied(g)
    case FlatFatal => Failure
  }

  /** The continuation that the code of `f` is given. */
  function ContOf(f: Flat): seq<Flat> {
    if f.FlatApply? then f.cont else []
  }

  function FlatSize(f: Flat): (n: nat)
    ensures n >= 1
  {
    match f
    case FlatApply(_, cont) => 1 + FlatSizes(cont)
    case _ => 1
  }

  function FlatSizes(fs: seq<Flat>): nat {
    if fs == [] then 0 else FlatSize(fs[0]) + FlatSizes(fs[1..])
  }

  /** The continuations registered by `action` after those in `conts`, by code with continuation `given`. */
  function Register(conts: seq<Flat>, action: Action, given: seq<Flat>): seq<Flat> {
    match action
    case Extend(next) => conts + Flatten(next)
    case Close(g) => conts + [FlatApply(g, given)]
    case Cont(f) => [FlatApply(f, conts)]
  }

  function Registers(conts: seq<Flat>, actions: seq<Action>, given: seq<Flat>): seq<Flat>
    decreases |actions|
  {
    if actions == [] then conts else Registers(Register(conts, actions[0], given), actions[1..], given)
  }

  /** What happens to a yield between its start and a prompt: the `actions` of code with continuation
      `given`, then the prompt of the handler with marker `marker`. */
  datatype Frame = Frame(actions: seq<Action>, given: Fun, marker: Marker)

  /** The continuations registered on the way up through `frames`, innermost first. */
  function RegistersAll(conts: seq<Flat>, frames: seq<Frame>): seq<Flat>
    decreases |frames|
  {
    if frames == [] then conts
    else RegistersAll(Registers(conts, frames[0].actions, Flatten(frames[0].given)), frames[1..])
  }

  function Extends(fs: seq<Fun>): (actions: seq<Action>)
    ensures |actions| == |fs| && forall i :: 0 <= i < |fs| ==> actions[i] == Extend(fs[i])
  {
    seq(|fs|, i requires 0 <= i < |fs| => Extend(fs[i]))
  }

  /** Code that only registers functions, as code after any other call does, registers them in order. */
  lemma {:induction false} OnlyExtends(conts: seq<Flat>, fs: seq<Fun>, given: seq<Flat>)
    ensures Registers(conts, Extends(fs), given) == conts + FlattenAll(fs)
    decreases |fs|
  {
    if fs != [] {
      assert Extends(fs)[1..] == Extends(fs[1..]);
      OnlyExtends(conts + Flatten(fs[0]), fs[1..], given);
      assert conts + Flatten(fs[0]) + FlattenAll(fs[1..]) == conts + FlattenAll(fs);
    }
  }

  lemma {:induction false} RegistersAppend(conts: seq<Flat>, actions: seq<Action>, more: seq<Action>, given: seq<Flat>)
    ensures Registers(conts, actions + more, given) == Registers(Registers(conts, actions, given), more, given)
    decreases |actions|
  {
    if actions == [] {
      assert actions + more == more;
    } else {
      assert (actions + more)[1..] == actions[1..] + more;
      RegistersAppend(Register(conts, actions[0], given), actions[1..], more, given);
    }
  }

  /** What one more action registers in the end: a function behind the others, code with the
      continuation that it was given behind the others, or code that is given all the others. */
  lemma {:induction false} RegistersLast(conts: seq<Flat>, actions: seq<Action>, given: seq<Flat>, next: Fun, g: nat)
    ensures var sofar := Registers(conts, actions, given);
      && Registers(conts, actions + [Extend(next)], given) == sofar + Flatten(next)
      && Registers(conts, actions + [Close(g)], given) == sofar + [FlatApply(g, given)]
      && Registers(conts, actions + [Cont(g)], given) == [FlatApply(g, sofar)]
  {
    RegistersAppend(conts, actions, [Extend(next)], given);
    RegistersAppend(conts, actions, [Close(g)], given);
    RegistersAppend(conts, actions, [Cont(g)], given);
  }

  /** Past one more prompt, what is registered before it comes first. */
  lemma {:induction false} RegistersAllLast(conts: seq<Flat>, frames: seq<Frame>, last: Frame)
    ensures RegistersAll(conts, frames + [last]) == Registers(RegistersAll(conts, frames), last.actions, Flatten(last.given))
    decreases |frames|
  {
    if frames == [] {
      assert [] + [last] == [last];
    } else {
      assert (frames + [last])[1..] == frames[1..] + [last];
      RegistersAllLast(Registers(conts, frames[0].actions, Flatten(frames[0].given)), frames[1..], last);
    }
  }

  /** What follows a continuation: after a yield the rest joins the continuations of the yield. */
  function Join(o: Outcome, rest: seq<Flat>): Outcome
    requires o.Yield?
  {
    if o.final then o.(conts := []) else o.(conts := o.conts + rest)
  }

  /** Kleisli composition: run `fs` in order. */
  function Run(code: Code, fs: seq<Flat>, x: Val): Outcome
    decreases FlatSizes(fs), 0, 0
  {
    if fs == [] then Return(x)
    else
      assert FlatSize(fs[0]) > FlatSizes(ContOf(fs[0]));
      var o := RunOne(code, fs[0], x, []);
      if o.Return? then Run(code, fs[1..], o.x) else Join(o, fs[1..])
  }

  /** A single continuation, after `results` of the calls of the continuation that it was given. */
  function RunOne(code: Code, f: Flat, x: Val, results: seq<Val>): Outcome
    decreases FlatSizes(ContOf(f)), 1, code.calls(NameOf(f), x) - |results|
  {
    match code.next(NameOf(f), x, results)
    case Value(y) => Return(y)
    case YieldTo(m, cl, final, actions) => Yield(m, cl, final, if final then [] else Registers([], actions, ContOf(f)))
    case Resume(y, actions) =>
      var o := Run(code, ContOf(f), y);
      if o.Return? then RunOne(code, f, x, results + [o.x])
      else if o.final then o.(conts := [])
      else o.(conts := Registers(o.conts, actions, ContOf(f)))
  }

  /** A final yield leaves nothing to be run. */
  lemma {:induction false} OneFinalHasNone(code: Code, f: Flat, x: Val, results: seq<Val>)
    ensures var o := RunOne(code, f, x, results); o.Yield? && o.final ==> o.conts == []
    decreases code.calls(NameOf(f), x) - |results|
  {
    match code.next(NameOf(f), x, results)
    case Resume(y, actions) =>
      var o := Run(code, ContOf(f), y);
      if o.Return? {
        OneFinalHasNone(code, f, x, results + [o.x]);
      }
    case _ =>
  }

  /** Where the list is cut does not matter: running `fs + gs` is running `fs`, then `gs`, and a
      yield in `fs` keeps all of `gs` for the resumption, unless it is final. */
  lemma {:induction false} RunAppend(code: Code, fs: seq<Flat>, gs: seq<Flat>, x: Val)
    ensures match Run(code, fs, x)
      case Return(y) => Run(code, fs + gs, x) == Run(code, gs, y)
      case Yield(m, cl, false, conts) => Run(code, fs + gs, x) == Yield(m, cl, false, conts + gs)
      case Yield(m, cl, true, conts) => conts == [] && Run(code, fs + gs, x) == Yield(m, cl, true, [])
    decreases |fs|
  {
    if fs == [] {
      assert fs + gs == gs;
    } else {
      assert (fs + gs)[1..] == fs[1..] + gs;
      var o := RunOne(code, fs[0], x, []);
      if o.Return? {
        RunAppend(code, fs[1..], gs, o.x);
      } else {
        assert o.conts + (fs[1..] + gs) == o.conts + fs[1..] + gs;
      }
    }
  }

  /** When the element at `i` of a composition yields, what it registered is followed by everything
      behind it in the composition. */
  lemma {:induction false} YieldKeepsRest(code: Code, fs: seq<Fun>, x: Val, i: nat)
    requires i < |fs| && Run(code, FlattenAll(fs[..i]), x).Return?
    ensures var o := Run(code, Flatten(fs[i]), Run(code, FlattenAll(fs[..i]), x).x);
      o.Yield? && !o.final ==> Run(code, FlattenAll(fs), x) == Yield(o.marker, o.clause, false, o.conts + FlattenAll(fs[i + 1..]))
  {
    hide Run;
    var rest := [fs[i]] + fs[i + 1..];
    assert fs == fs[..i] + rest;
    FlattenAppend(fs[..i], rest);
    FlattenAppend([fs[i]], fs[i + 1..]);
    FlattenOne(fs[i]);
    RunAppend(code, FlattenAll(fs[..i]), FlattenAll(rest), x);
    RunAppend(code, Flatten(fs[i]), FlattenAll(fs[i + 1..]), Run(code, FlattenAll(fs[..i]), x).x);
  }

  // ------- the context -------

  datatype Yielding = NotYielding | Normal | Final

  /** A captured yield. */
  datatype YieldInfo = YieldInfo(clause: nat, conts: seq<Fun>, marker: Marker, yielding: Yielding)

  /** What a prompt finds. */
  datatype Prompt = Pure | YieldingOn | YieldingFinal | Yielded(clause: nat, cont: Fun)

  /** Compose continuations into one function. */
  function NewKcompose(conts: seq<Fun>): (f: Fun)
    ensures Flatten(f) == FlattenAll(conts)
  {
    if |conts| == 0 then Id
    else if |conts| == 1 then (FlattenOne(conts[0]); assert conts == [conts[0]]; conts[0])
    else Kcompose(conts)
  }

  class Context {
    var yielding: Yielding
    var marker: Marker
    var clause: nat
    const conts: array<Fun>
    var contsCount: nat

    ghost predicate Valid()
      reads this
    {
      conts.Length == CONT_MAX && contsCount <= CONT_MAX
    }

    /** All continuations registered since the yield started, in order. */
    ghost function Registered(): seq<Flat>
      reads this, conts
      requires Valid()
    {
      FlattenAll(conts[..contsCount])
    }

    /** The context is yielding as described by `o`. */
    ghost predicate Shows(o: Outcome)
      reads this, conts
      requires Valid()
    {
      && o.Yield? && marker == o.marker && clause == o.clause && yielding == (if o.final then Final else Normal)
      && (!o.final ==> Registered() == o.conts)
    }

    constructor ()
      ensures Valid() && yielding == NotYielding && fresh(conts)
    {
      yielding, marker, clause, contsCount := NotYielding, 0, 0, 0;
      conts := new Fun[CONT_MAX](_ => Id);
    }

    /** Register the continuation `next`; a full buffer is first composed into its first slot. */
    method YieldExtend(next: Fun)
      requires Valid() && yielding != NotYielding
      modifies this`contsCount, conts
      ensures Valid()
      ensures yielding == Normal ==> Registered() == old(Registered()) + Flatten(next)
      ensures yielding == Final ==> contsCount == old(contsCount) && conts[..] == old(conts[..])
    {
      if yielding != Final {
        if contsCount >= CONT_MAX {
          var comp := NewKcompose(conts[..contsCount]);
          conts[0] := comp;
          contsCount := 1;
          assert conts[..1] == [comp];
          FlattenOne(comp);
        }
        ghost var before := conts[..contsCount];
        conts[contsCount] := next;
        contsCount := contsCount + 1;
        assert conts[..contsCount] == before + [next];
        FlattenAppend(before, [next]);
        FlattenOne(next);
      }
    }

    /** Register a function that gets the continuation so far as an argument. */
    method YieldCont(f: nat)
      requires Valid() && yielding != NotYielding
      modifies this`contsCount, conts
      ensures Valid()
      ensures yielding == Normal ==> Registered() == [FlatApply(f, old(Registered()))]
      ensures yielding == Final ==> contsCount == old(contsCount) && conts[..] == old(conts[..])
    {
      if yielding != Final {
        var cont := NewKcompose(conts[..contsCount]);
        contsCount := 1;
        conts[0] := ContApply(f, cont);
        assert conts[..1] == [ContApply(f, cont)];
        FlattenOne(ContApply(f, cont));
      }
    }

    /** Start yielding to the handler with marker `m`. */
    method StartYield(m: Marker, cl: nat)
      requires Valid() && yielding == NotYielding
      modifies this
      ensures Valid() && Shows(Yield(m, cl, false, []))
    {
      yielding := Normal;
      marker := m;
      clause := cl;
      contsCount := 0;
    }

    /** Start yielding without ever resuming. */
    method YieldFinal(m: Marker, cl: nat)
      requires Valid() && yielding == NotYielding
      modifies this
      ensures Valid() && Shows(Yield(m, cl, true, []))
    {
      StartYield(m, cl);
      yielding := Final;
    }

    /** The prompt of the handler with marker `m`: stop yielding if it is the target. */
    method YieldPrompt(m: Marker) returns (p: Prompt)
      requires Valid()
      modifies this`yielding
      ensures old(yielding) == NotYielding ==> p == Pure && yielding == NotYielding
      ensures old(yielding) != NotYielding && marker != m ==>
        p == (if yielding == Final then YieldingFinal else YieldingOn) && yielding == old(yielding)
      ensures old(yielding) != NotYielding && marker == m ==>
        p.Yielded? && p.clause == clause && yielding == NotYielding
      ensures old(yielding) == Normal && marker == m ==> Flatten(p.cont) == old(Registered())
      ensures old(yielding) == Final && marker == m ==> p.cont == FatalResume
    {
      if yielding == NotYielding {
        p := Pure;
      } else if marker != m {
        p := if yielding == Final then YieldingFinal else YieldingOn;
      } else {
        var cont := if yielding == Final then FatalResume else NewKcompose(conts[..contsCount]);
        yielding := NotYielding;
        p := Yielded(clause, cont);
      }
    }

    /** Take the current yield out of the context. */
    method YieldCapture() returns (info: YieldInfo)
      requires Valid() && yielding != NotYielding
      modifies this
      ensures Valid() && yielding == NotYielding && contsCount == 0
      ensures info == YieldInfo(old(clause), old(conts[..contsCount]), old(marker), old(yielding))
    {
      var captured := [];
      for i := 0 to contsCount
        invariant captured == conts[..i]
      {
        captured := captured + [conts[i]];
      }
      info := YieldInfo(clause, captured, marker, yielding);
      yielding := NotYielding;
      contsCount := 0;
    }

    /** Put a captured yield back: the context yields as if it had never been taken out. */
    method YieldReyield(info: YieldInfo)
      requires Valid() && yielding == NotYielding && info.yielding != NotYielding && |info.conts| <= CONT_MAX
      modifies this, conts
      ensures Valid() && Shows(Yield(info.marker, info.clause, info.yielding == Final, FlattenAll(info.conts)))
      ensures conts[..contsCount] == info.conts
    {
      clause := info.clause;
      marker := info.marker;
      contsCount := |info.conts|;
      yielding := info.yielding;
      for i := 0 to |info.conts|
        invariant contsCount == |info.conts| && Valid() && marker == info.marker && clause == info.clause && yielding == info.yielding
        invariant conts[..i] == info.conts[..i]
      {
        conts[i] := info.conts[i];
      }
      assert info.conts[..|info.conts|] == info.conts;
    }

    /** Unwind: what compiled code does to the context after a yield. */
    method Unwind(actions: seq<Action>, cont: Fun)
      requires Valid() && yielding != NotYielding
      modifies this`contsCount, conts
      ensures Valid()
      ensures yielding == Normal ==> Registered() == Registers(old(Registered()), actions, Flatten(cont))
    {
      assert actions[0..] == actions;
      for i := 0 to |actions|
        invariant Valid()
        invariant yielding == Normal ==> Registers(Registered(), actions[i..], Flatten(cont)) == Registers(old(Registered()), actions, Flatten(cont))
      {
        assert actions[i..][0] == actions[i] && actions[i..][1..] == actions[i + 1..];
        match actions[i]
        case Extend(next) => YieldExtend(next);
        case Close(g) => YieldExtend(ContApply(g, cont));
        case Cont(g) => YieldCont(g);
      }
      assert actions[|actions|..] == [];
    }

    /** A yield on its way up: past the prompts of other handlers to the one that it is meant for, which
        gets a resumption for everything registered on the way. */
    method YieldUp(m: Marker, cl: nat, frames: seq<Frame>) returns (p: Prompt)
      requires Valid() && yielding == NotYielding && frames != []
      requires forall i :: 0 <= i < |frames| ==> (frames[i].marker == m <==> i == |frames| - 1)
      modifies this, conts
      ensures Valid() && yielding == NotYielding
      ensures p.Yielded? && p.clause == cl && Flatten(p.cont) == RegistersAll([], frames)
    {
      StartYield(m, cl);
      p := YieldingOn;
      assert frames[0..] == frames;
      for i := 0 to |frames|
        invariant Valid() && marker == m && clause == cl
        invariant i < |frames| ==> yielding == Normal && RegistersAll(Registered(), frames[i..]) == RegistersAll([], frames)
        invariant i == |frames| ==>
          yielding == NotYielding && p.Yielded? && p.clause == cl && Flatten(p.cont) == RegistersAll([], frames)
      {
        assert frames[i..][1..] == frames[i + 1..];
        Unwind(frames[i].actions, frames[i].given);
        p := YieldPrompt(frames[i].marker);
      }
    }

    /** Yield, and resume with `v`: this is running everything registered on the way to the prompt on `v`. */
    method YieldAndResume(code: Code, m: Marker, cl: nat, frames: seq<Frame>, v: Val) returns (y: Val)
      requires Valid() && yielding == NotYielding && frames != []
      requires forall i :: 0 <= i < |frames| ==> (frames[i].marker == m <==> i == |frames| - 1)
      modifies this, conts
      ensures Valid()
      ensures var o := Run(code, RegistersAll([], frames), v);
        if o.Return? then yielding == NotYielding && y == o.x else Shows(o)
    {
      var p := YieldUp(m, cl, frames);
      y := Call(code, p.cont, v);
    }

    /** Yield through the continuations `fs`, and resume with `v`: this is running `fs` on `v`. */
    method YieldThrough(code: Code, m: Marker, cl: nat, fs: seq<Fun>, v: Val) returns (y: Val)
      requires Valid() && yielding == NotYielding
      modifies this, conts
      ensures Valid()
      ensures var o := Run(code, FlattenAll(fs), v); if o.Return? then yielding == NotYielding && y == o.x else Shows(o)
    {
      var up := Frame(Extends(fs), Id, m);
      OnlyExtends([], fs, []);
      assert RegistersAll([], [up]) == FlattenAll(fs) by {
        assert [up][1..] == [];
      }
      y := YieldAndResume(code, m, cl, [up], v);
    }

    /** Call the compiled code of `f`, which is given the continuation `cont`. */
    method CallCode(code: Code, ghost f: Flat, name: Name, cont: Fun, x: Val) returns (y: Val)
      requires Valid() && yielding == NotYielding && name == NameOf(f) && Flatten(cont) == ContOf(f)
      modifies this, conts
      ensures Valid()
      ensures var o := RunOne(code, f, x, []); if o.Return? then yielding == NotYielding && y == o.x else Shows(o)
      decreases FunSize(cont), 1
    {
      var results: seq<Val> := [];
      while true
        invariant Valid() && yielding == NotYielding && RunOne(code, f, x, results) == RunOne(code, f, x, [])
        decreases code.calls(name, x) - |results|
      {
        match code.next(name, x, results)
        case Value(v) =>
          return v;
        case YieldTo(m, cl, final, actions) =>
          if final {
            YieldFinal(m, cl);
          } else {
            StartYield(m, cl);
          }
          Unwind(actions, cont);
          return 0;
        case Resume(v, actions) =>
          y := Call(code, cont, v);
          if yielding != NotYielding {
            Unwind(actions, cont);
            return 0;
          }
          results := results + [y];
      }
    }

    /** Call a function value. */
    method Call(code: Code, f: Fun, x: Val) returns (y: Val)
      requires Valid() && yielding == NotYielding
      modifies this, conts
      ensures Valid()
      ensures var o := Run(code, Flatten(f), x); if o.Return? then yielding == NotYielding && y == o.x else Shows(o)
      decreases FunSize(f), 0
    {
      match f
      case Id =>
        y := x;
      case Kcompose(fs) =>
        y := CallComposed(code, fs, x);
      case Prim(id) =>
        y := CallCode(code, FlatPrim(id), Function(id), Id, x);
        RunSingle(code, FlatPrim(id), x);
      case ContApply(g, cont) =>
        y := CallCode(code, FlatApply(g, Flatten(cont)), Applied(g), cont, x);
        RunSingle(code, FlatApply(g, Flatten(cont)), x);
      case FatalResume =>
        y := CallCode(code, FlatFatal, Failure, Id, x);
        RunSingle(code, FlatFatal, x);
    }

    /** Call each continuation in order; when one yields, the remaining ones are registered. */
    method CallComposed(code: Code, fs: seq<Fun>, x0: Val) returns (x: Val)
      requires Valid() && yielding == NotYielding
      modifies this, conts
      ensures Valid()
      ensures var o := Run(code, FlattenAll(fs), x0); if o.Return? then yielding == NotYielding && x == o.x else Shows(o)
      // when an element yields, all those behind it are registered after what it registered itself
      ensures forall i | 0 <= i < |fs| && Run(code, FlattenAll(fs[..i]), x0).Return? ::
        var o := Run(code, Flatten(fs[i]), Run(code, FlattenAll(fs[..i]), x0).x);
        o.Yield? && !o.final ==> yielding == Normal && marker == o.marker && clause == o.clause
                                 && Registered() == o.conts + FlattenAll(fs[i + 1..])
      decreases FunSizes(fs), 1
    {
      forall i | 0 <= i < |fs| && Run(code, FlattenAll(fs[..i]), x0).Return? {
        YieldKeepsRest(code, fs, x0, i);
      }
      x := x0;
      var i := 0;
      assert fs[0..] == fs;
      while i < |fs|
        invariant i <= |fs| && Valid() && yielding == NotYielding
        invariant Run(code, FlattenAll(fs[i..]), x) == Run(code, FlattenAll(fs), x0)
      {
        var f := fs[i];
        assert fs[i..] == [f] + fs[i + 1..];
        FlattenAppend([f], fs[i + 1..]);
        FlattenOne(f);
        RunAppend(code, Flatten(f), FlattenAll(fs[i + 1..]), x);
        ghost var o := Run(code, Flatten(f), x);
        FunSizeIn(fs, i);
        x := Call(code, f, x);
        i := i + 1;
        if yielding != NotYielding {
          ExtendAll(fs[i..]);
          return 0;
        }
      }
      assert fs[|fs|..] == [];
    }

    /** Register the continuations that still have to be run. */
    method ExtendAll(fs: seq<Fun>)
      requires Valid() && yielding != NotYielding
      modifies this`contsCount, conts
      ensures Valid()
      ensures yielding == Normal ==> Registered() == old(Registered()) + FlattenAll(fs)
    {
      var i := 0;
      assert fs[..0] == [];
      while i < |fs|
        invariant i <= |fs| && Valid()
        invariant yielding == Normal ==> Registered() == old(Registered()) + FlattenAll(fs[..i])
      {
        YieldExtend(fs[i]);
        assert fs[..i + 1] == fs[..i] + [fs[i]];
        FlattenAppend(fs[..i], [fs[i]]);
        FlattenOne(fs[i]);
        i := i + 1;
      }
      assert fs[..|fs|] == fs;
    }
  }

  lemma RunSingle(code: Code, f: Flat, x: Val)
    ensures Run(code, [f], x) == RunOne(code, f, x, [])
  {
    var o := RunOne(code, f, x, []);
    assert [f][1..] == [];
    if o.Yield? {
      OneFinalHasNone(code, f, x, []);
    } else {
      assert Run(code, [], o.x) == o;
    }
  }
}
