/** Evidence vectors: the handlers in scope as a sequence sorted by effect tag, which has to act
    like the stack of handlers that it was made from. */
module Evidence {

  // ------- tags are strings, ordered byte by byte -------

  type Tag = seq<nat>

  /** Three-way comparison of two tags. */
  function Cmp(s: Tag, t: Tag): int {
    if s == [] then (if t == [] then 0 else -1)
    else if t == [] then 1
    else if s[0] != t[0] then (if s[0] < t[0] then -1 else 1)
    else Cmp(s[1..], t[1..])
  }

  lemma {:induction false} CmpTotal(s: Tag, t: Tag)
    ensures Cmp(s, t) == 0 <==> s == t
    ensures Cmp(s, t) == -Cmp(t, s)
  {
    if s != [] && t != [] {
      CmpTotal(s[1..], t[1..]);
      assert s == [s[0]] + s[1..] && t == [t[0]] + t[1..];
    }
  }

  lemma {:induction false} CmpTransitive(s: Tag, t: Tag, u: Tag)
    requires Cmp(s, t) <= 0 && Cmp(t, u) <= 0
    ensures Cmp(s, u) <= 0
    ensures Cmp(s, t) < 0 || Cmp(t, u) < 0 ==> Cmp(s, u) < 0
  {
    if s != [] && t != [] && u != [] && s[0] == t[0] == u[0] {
      CmpTransitive(s[1..], t[1..], u[1..]);
    }
  }

  // ------- evidence -------

  datatype Handler = Handler(tag: Tag, marker: int, hnd: int)

  /** Evidence for one handler; `hevv` is the evidence vector of its context. */
  datatype Ev = Ev(h: Handler, hevv: Evv)

  /** A vector, or directly the evidence itself if there is one handler. */
  datatype Evv = Vector(evs: seq<Ev>) | Single(ev: Ev)

  function AsVec(evv: Evv): seq<Ev> {
    if evv.Vector? then evv.evs else [evv.ev]
  }

  /** The handlers in a vector. */
  function Handlers(evs: seq<Ev>): seq<Handler> {
    seq(|evs|, i requires 0 <= i < |evs| => evs[i].h)
  }

  predicate Sorted(evs: seq<Handler>) {
    forall i, j | 0 <= i < j < |evs| :: Cmp(evs[i].tag, evs[j].tag) <= 0
  }

  /** `i` is where the evidence for `tag` starts, or would be inserted. */
  predicate IsIndex(evs: seq<Handler>, tag: Tag, i: nat) {
    && i <= |evs|
    && (forall k | 0 <= k < i :: Cmp(tag, evs[k].tag) > 0)
    && (i < |evs| ==> Cmp(tag, evs[i].tag) <= 0)
  }

  method Index(evv: Evv, tag: Tag) returns (i: nat)
    ensures IsIndex(Handlers(AsVec(evv)), tag, i)
  {
    var vec := AsVec(evv);
    i := 0;
    while i < |vec|
      invariant i <= |vec| && forall k | 0 <= k < i :: Cmp(tag, vec[k].h.tag) > 0
    {
      if Cmp(tag, vec[i].h.tag) <= 0 {
        return i;
      }
      i := i + 1;
    }
  }

  /** Insert evidence; returns the new vector and the evidence with its context filled in. Marker 0
      stands for no evidence, and a negative one for a named handler, found by its name only. */
  method Insert(evv: Evv, ev0: Ev) returns (evv': Evv, ev: Ev)
    ensures ev == if ev0.h.marker == 0 then ev0 else ev0.(hevv := evv)
    ensures ev0.h.marker <= 0 ==> evv' == evv
    ensures ev0.h.marker > 0 ==> exists i: nat | i <= |AsVec(evv)| ::
      (IsIndex(Handlers(AsVec(evv)), ev.h.tag, i) && AsVec(evv') == AsVec(evv)[..i] + [ev] + AsVec(evv)[i..])
    ensures ev0.h.marker > 0 ==> StepTo(Handlers(AsVec(evv)), Push(ev.h), Handlers(AsVec(evv')))
  {
    hide Cmp, Handlers, IsIndex, StepTo;
    ev := ev0;
    if ev0.h.marker == 0 {
      return evv, ev;
    }
    ev := ev.(hevv := evv);
    if ev0.h.marker < 0 {
      return evv, ev;
    }
    var evv1 := AsVec(evv);
    var n := |evv1|;
    if n == 0 {
      evv' := Single(ev);
      Inserted(evv1, AsVec(evv'), ev, 0);
      return;
    }
    var evv2, i := CopySmaller(evv1, ev.h.tag);
    evv2 := evv2 + [ev];
    ghost var at := i;
    while i < n
      invariant at <= i <= n && evv2 == evv1[..at] + [ev] + evv1[at..i]
    {
      assert evv1[at..i + 1] == evv1[at..i] + [evv1[i]];
      evv2 := evv2 + [evv1[i]];
      i := i + 1;
    }
    evv' := Vector(evv2);
    assert evv1[at..n] == evv1[at..];
    Inserted(evv1, AsVec(evv'), ev, at);
  }

  /** Copy the evidence that goes before `tag`. */
  method CopySmaller(evv1: seq<Ev>, tag: Tag) returns (evv2: seq<Ev>, i: nat)
    ensures i <= |evv1| && evv2 == evv1[..i]
    ensures (forall k | 0 <= k < i :: Cmp(tag, evv1[k].h.tag) > 0) && (i < |evv1| ==> Cmp(tag, evv1[i].h.tag) <= 0)
  {
    hide Cmp;
    evv2 := [];
    i := 0;
    while i < |evv1| && Cmp(tag, evv1[i].h.tag) > 0
      invariant i <= |evv1| && evv2 == evv1[..i]
      invariant forall k | 0 <= k < i :: Cmp(tag, evv1[k].h.tag) > 0
    {
      evv2 := evv2 + [evv1[i]];
      i := i + 1;
    }
  }

  lemma Inserted(evs: seq<Ev>, evs': seq<Ev>, ev: Ev, i: nat)
    requires i <= |evs| && evs' == evs[..i] + [ev] + evs[i..]
    requires (forall k | 0 <= k < i :: Cmp(ev.h.tag, evs[k].h.tag) > 0) && (i < |evs| ==> Cmp(ev.h.tag, evs[i].h.tag) <= 0)
    ensures IsIndex(Handlers(evs), ev.h.tag, i) && StepTo(Handlers(evs), Push(ev.h), Handlers(evs'))
  {
    hide Cmp;
    var hs := Handlers(evs);
    assert Handlers(evs') == hs[..i] + [ev.h] + hs[i..];
  }

  /** Remove the evidence at `index`, or the one behind it. */
  method Delete(evv: Evv, index: nat, behind: bool) returns (evv': Evv)
    requires |AsVec(evv)| > 1 ==> index + (if behind then 1 else 0) < |AsVec(evv)|
    ensures var evs, i := AsVec(evv), index + (if behind then 1 else 0);
      AsVec(evv') == if |evs| <= 1 then [] else evs[..i] + evs[i + 1..]
    ensures Deleted(Handlers(AsVec(evv)), index + (if behind then 1 else 0), Handlers(AsVec(evv')))
  {
    hide Cmp, Handlers, Deleted;
    var evv1 := AsVec(evv);
    var n := |evv1|;
    var at := if behind then index + 1 else index;
    if n <= 1 {
      evv' := Vector([]);
      Removed(evv1, AsVec(evv'), at);
      return;
    }
    var evv2 := [];
    var i := 0;
    while i < at
      invariant i <= at && evv2 == evv1[..i]
    {
      evv2 := evv2 + [evv1[i]];
      i := i + 1;
    }
    assert evv1[at + 1..at + 1] == [];
    while i < n - 1
      invariant at <= i <= n - 1 && evv2 == evv1[..at] + evv1[at + 1..i + 1]
    {
      assert evv1[at + 1..i + 2] == evv1[at + 1..i + 1] + [evv1[i + 1]];
      evv2 := evv2 + [evv1[i + 1]];
      i := i + 1;
    }
    assert evv1[at + 1..n] == evv1[at + 1..];
    evv' := Vector(evv2);
    Removed(evv1, AsVec(evv'), at);
  }

  lemma Removed(evs: seq<Ev>, evs': seq<Ev>, i: nat)
    requires |evs| > 1 ==> i < |evs|
    requires evs' == if |evs| <= 1 then [] else evs[..i] + evs[i + 1..]
    ensures Deleted(Handlers(evs), i, Handlers(evs'))
  {
    if |evs| > 1 {
      assert Handlers(evs') == Handlers(evs)[..i] + Handlers(evs)[i + 1..];
    }
  }

  // ------- the stack of handlers, innermost first -------

  /** The handlers for `tag`, innermost first. */
  function Of(evs: seq<Handler>, tag: Tag): seq<Handler> {
    if evs == [] then []
    else (if evs[0].tag == tag then [evs[0]] else []) + Of(evs[1..], tag)
  }

  /** An evidence vector is right for a handler stack if it is sorted and has the same handlers for
      each tag, in the same order. */
  ghost predicate Models(evs: seq<Handler>, stack: seq<Handler>) {
    && Sorted(evs)
    && forall tag :: Of(evs, tag) == Of(stack, tag)
  }

  lemma {:induction false} OfAppend(s: seq<Handler>, t: seq<Handler>, tag: Tag)
    ensures Of(s + t, tag) == Of(s, tag) + Of(t, tag)
  {
    hide Cmp;
    if s == [] {
      assert s + t == t;
    } else {
      assert (s + t)[0] == s[0] && (s + t)[1..] == s[1..] + t;
      OfAppend(s[1..], t, tag);
      var h := if s[0].tag == tag then [s[0]] else [];
      assert h + Of(s[1..], tag) + Of(t, tag) == h + (Of(s[1..], tag) + Of(t, tag));
    }
  }

  lemma {:induction false} OfNone(s: seq<Handler>, tag: Tag)
    requires forall k | 0 <= k < |s| :: s[k].tag != tag
    ensures Of(s, tag) == []
  {
    if s != [] {
      OfNone(s[1..], tag);
    }
  }

  /** The tags before the index are different from `tag`, and those from it on are not smaller. */
  lemma {:induction false} AroundIndex(evs: seq<Handler>, tag: Tag, i: nat)
    requires Sorted(evs) && IsIndex(evs, tag, i)
    ensures Of(evs[..i], tag) == [] && Of(evs, tag) == Of(evs[i..], tag)
    ensures forall k | i <= k < |evs| :: Cmp(tag, evs[k].tag) <= 0
  {
    forall k | 0 <= k < i ensures evs[k].tag != tag {
      CmpTotal(tag, evs[k].tag);
    }
    OfNone(evs[..i], tag);
    OfAppend(evs[..i], evs[i..], tag);
    assert evs == evs[..i] + evs[i..];
    forall k | i <= k < |evs|
      ensures Cmp(tag, evs[k].tag) <= 0
    {
      if k > i {
        CmpTransitive(tag, evs[i].tag, evs[k].tag);
      }
    }
  }

  /** From its index on, a sorted vector lists the handlers of `tag` one after the other. */
  lemma {:induction false} Consecutive(evs: seq<Handler>, tag: Tag, l: nat)
    requires Sorted(evs) && (forall k | 0 <= k < |evs| :: Cmp(tag, evs[k].tag) <= 0) && l < |Of(evs, tag)|
    ensures l < |evs| && evs[l] == Of(evs, tag)[l]
  {
    CmpTotal(tag, evs[0].tag);
    if evs[0].tag == tag {
      if l > 0 {
        Consecutive(evs[1..], tag, l - 1);
      }
    } else {
      forall k | 0 <= k < |evs|
        ensures evs[k].tag != tag
      {
        if k > 0 {
          CmpTransitive(tag, evs[0].tag, evs[k].tag);
        }
        CmpTotal(tag, evs[k].tag);
      }
      OfNone(evs, tag);
    }
  }

  /** The index, plus a mask level `l`, finds the `l`-th innermost handler; without a handler for
      `tag` it points to none. */
  lemma {:induction false} IndexFinds(evs: seq<Handler>, stack: seq<Handler>, tag: Tag, i: nat, l: nat)
    requires Models(evs, stack) && IsIndex(evs, tag, i)
    ensures l < |Of(stack, tag)| ==> i + l < |evs| && evs[i + l] == Of(stack, tag)[l]
    ensures Of(stack, tag) == [] ==> i == |evs| || evs[i].tag != tag
  {
    AroundIndex(evs, tag, i);
    assert Of(evs, tag) == Of(stack, tag);
    if l < |Of(stack, tag)| {
      Consecutive(evs[i..], tag, l);
    }
  }

  lemma {:induction false} InsertSorted(evs: seq<Handler>, h: Handler, i: nat)
    requires Sorted(evs) && IsIndex(evs, h.tag, i)
    ensures Sorted(evs[..i] + [h] + evs[i..])
  {
    var r := evs[..i] + [h] + evs[i..];
    AroundIndex(evs, h.tag, i);
    forall j, k | 0 <= j < k < |r|
      ensures Cmp(r[j].tag, r[k].tag) <= 0
    {
      if j < i && k == i {
        CmpTotal(evs[j].tag, h.tag);
      } else if j == i {
        assert r[k] == evs[k - 1];
      } else {
        assert r[j] == evs[if j < i then j else j - 1] && r[k] == evs[if k < i then k else k - 1];
      }
    }
  }

  /** Pushing a handler on the stack is inserting its evidence. */
  lemma {:induction false} InsertModels(evs: seq<Handler>, stack: seq<Handler>, h: Handler, i: nat)
    requires Models(evs, stack) && IsIndex(evs, h.tag, i)
    ensures Models(evs[..i] + [h] + evs[i..], [h] + stack)
  {
    InsertSorted(evs, h, i);
    forall tag ensures Of(evs[..i] + [h] + evs[i..], tag) == Of([h] + stack, tag) {
      OfInserted(evs, stack, h, i, tag);
    }
  }

  lemma {:induction false} OfInserted(evs: seq<Handler>, stack: seq<Handler>, h: Handler, i: nat, tag: Tag)
    requires Models(evs, stack) && IsIndex(evs, h.tag, i)
    ensures Of(evs[..i] + [h] + evs[i..], tag) == Of([h] + stack, tag)
  {
    hide Sorted, Cmp, Of;
    AroundIndex(evs, h.tag, i);
    assert evs == evs[..i] + evs[i..] && Of(evs, tag) == Of(stack, tag);
    OfMoved(evs[..i], h, evs[i..], stack, tag);
  }

  lemma {:induction false} OfMoved(a: seq<Handler>, h: Handler, b: seq<Handler>, stack: seq<Handler>, tag: Tag)
    requires Of(a + b, tag) == Of(stack, tag) && (h.tag == tag ==> Of(a, tag) == [])
    ensures Of(a + [h] + b, tag) == Of([h] + stack, tag)
  {
    hide Of;
    OfAppend(a + [h], b, tag);
    OfAppend(a, [h], tag);
    OfAppend(a, b, tag);
    OfAppend([h], stack, tag);
    OfOne(h, tag);
    if h.tag != tag {
      assert Of(a, tag) + [] == Of(a, tag);
    }
  }

  lemma OfOne(h: Handler, tag: Tag)
    ensures Of([h], tag) == if h.tag == tag then [h] else []
  {
  }

  /** The stack without the `l`-th innermost handler for `tag`. */
  function Without(stack: seq<Handler>, tag: Tag, l: nat): seq<Handler> {
    if stack == [] then []
    else if stack[0].tag != tag then [stack[0]] + Without(stack[1..], tag, l)
    else if l == 0 then stack[1..]
    else [stack[0]] + Without(stack[1..], tag, l - 1)
  }

  lemma {:induction false} OfWithoutOther(stack: seq<Handler>, tag: Tag, l: nat, other: Tag)
    requires other != tag
    ensures Of(Without(stack, tag, l), other) == Of(stack, other)
  {
    if stack != [] {
      var h, rest := stack[0], stack[1..];
      if h.tag != tag {
        OfWithoutOther(rest, tag, l, other);
        OfAppend([h], Without(rest, tag, l), other);
      } else if l > 0 {
        OfWithoutOther(rest, tag, l - 1, other);
        OfAppend([h], Without(rest, tag, l - 1), other);
      }
      OfAppend([h], rest, other);
      assert stack == [h] + rest;
    }
  }

  lemma {:induction false} OfWithoutSame(stack: seq<Handler>, tag: Tag, l: nat)
    requires l < |Of(stack, tag)|
    ensures Of(Without(stack, tag, l), tag) == Of(stack, tag)[..l] + Of(stack, tag)[l + 1..]
  {
    var h, rest, p := stack[0], stack[1..], Of(stack[1..], tag);
    OfOne(h, tag);
    if h.tag != tag {
      assert Of(stack, tag) == p;
      OfWithoutSame(rest, tag, l);
      OfAppend([h], Without(rest, tag, l), tag);
    } else if l > 0 {
      assert Of(stack, tag) == [h] + p;
      OfWithoutSame(rest, tag, l - 1);
      OfAppend([h], Without(rest, tag, l - 1), tag);
      CutBehind(h, p, l);
    }
  }

  lemma CutBehind(h: Handler, p: seq<Handler>, l: nat)
    requires 0 < l <= |p|
    ensures ([h] + p)[..l] + ([h] + p)[l + 1..] == [h] + (p[..l - 1] + p[l..])
  {
  }

  /** Deleting at the index, or behind it, is taking the innermost handler, or the one behind it,
      from the stack. */
  lemma {:induction false} DeleteModels(evs: seq<Handler>, stack: seq<Handler>, tag: Tag, i: nat, l: nat)
    requires Models(evs, stack) && IsIndex(evs, tag, i) && l < |Of(stack, tag)|
    ensures i + l < |evs| && Models(evs[..i + l] + evs[i + l + 1..], Without(stack, tag, l))
  {
    IndexFinds(evs, stack, tag, i, l);
    var r := evs[..i + l] + evs[i + l + 1..];
    forall other ensures Of(r, other) == Of(Without(stack, tag, l), other) {
      if other == tag {
        OfWithoutSame(stack, tag, l);
      } else {
        OfWithoutOther(stack, tag, l, other);
      }
      OfRemoved(evs, stack, tag, i, l, other);
    }
  }

  lemma {:induction false} OfRemoved(evs: seq<Handler>, stack: seq<Handler>, tag: Tag, i: nat, l: nat, other: Tag)
    requires Models(evs, stack) && IsIndex(evs, tag, i) && l < |Of(stack, tag)|
    ensures i + l < |evs|
    ensures Of(evs[..i + l] + evs[i + l + 1..], other) ==
      if other == tag then Of(stack, tag)[..l] + Of(stack, tag)[l + 1..] else Of(stack, other)
  {
    IndexFinds(evs, stack, tag, i, l);
    var a, e, b := evs[..i + l], evs[i + l], evs[i + l + 1..];
    assert evs == a + [e] + b;
    OfAppend(a + [e], b, other);
    OfAppend(a, [e], other);
    OfAppend(a, b, other);
    assert Of(evs, other) == Of(stack, other);
    OfOne(e, other);
    ItsTag(stack, tag, l);
    if other == tag {
      OfPrefix(evs, stack, tag, i, l);
    }
  }

  lemma {:induction false} ItsTag(stack: seq<Handler>, tag: Tag, l: nat)
    requires l < |Of(stack, tag)|
    ensures Of(stack, tag)[l].tag == tag
  {
    var here := if stack[0].tag == tag then 1 else 0;
    if l >= here {
      ItsTag(stack[1..], tag, l - here);
    }
  }

  /** Before position `i + l` there are exactly `l` handlers for `tag`. */
  lemma {:induction false} OfPrefix(evs: seq<Handler>, stack: seq<Handler>, tag: Tag, i: nat, l: nat)
    requires Models(evs, stack) && IsIndex(evs, tag, i) && l < |Of(stack, tag)|
    ensures i + l < |evs| && Of(evs[..i + l], tag) == Of(stack, tag)[..l]
  {
    hide Cmp, Sorted;
    IndexFinds(evs, stack, tag, i, l);
    if l == 0 {
      AroundIndex(evs, tag, i);
    } else {
      OfPrefix(evs, stack, tag, i, l - 1);
      IndexFinds(evs, stack, tag, i, l - 1);
      var e := evs[i + l - 1];
      assert evs[..i + l] == evs[..i + l - 1] + [e];
      OfAppend(evs[..i + l - 1], [e], tag);
      ItsTag(stack, tag, l - 1);
      OfOne(e, tag);
    }
  }

  /** Deleting at the index exactly undoes the insertion. */
  lemma {:induction false} DeleteUndoesInsert(evs: seq<Handler>, ev: Handler, i: nat, j: nat)
    requires Sorted(evs) && IsIndex(evs, ev.tag, i)
    requires IsIndex(evs[..i] + [ev] + evs[i..], ev.tag, j)
    ensures j == i
    ensures var r := evs[..i] + [ev] + evs[i..]; r[..j] + r[j + 1..] == evs
  {
    CmpTotal(ev.tag, ev.tag);
    var r := evs[..i] + [ev] + evs[i..];
    assert forall k | 0 <= k < i :: r[k] == evs[k];
    OneIndex(r, ev.tag, i, j);
  }

  lemma OneIndex(evs: seq<Handler>, tag: Tag, i: nat, j: nat)
    requires IsIndex(evs, tag, i) && IsIndex(evs, tag, j)
    ensures i == j
  {
  }

  // ------- whole runs -------

  /** Install a handler, or mask the innermost handler (or the one behind it) of an effect. */
  datatype Op = Push(h: Handler) | Mask(tag: Tag, behind: bool)

  function Level(behind: bool): nat {
    if behind then 1 else 0
  }

  /** What an operation does to the evidence vector, at the index of the tag. */
  ghost predicate StepTo(evs: seq<Handler>, op: Op, evs': seq<Handler>) {
    match op
    case Push(h) => exists i: nat | i <= |evs| :: IsIndex(evs, h.tag, i) && evs' == evs[..i] + [h] + evs[i..]
    case Mask(tag, behind) => exists i: nat | i <= |evs| :: IsIndex(evs, tag, i) && Deleted(evs, i + Level(behind), evs')
  }

  ghost predicate Deleted(evs: seq<Handler>, i: nat, evs': seq<Handler>) {
    if |evs| <= 1 then evs' == [] else i < |evs| && evs' == evs[..i] + evs[i + 1..]
  }

  /** Masking is for an effect that is handled, and handled twice for the one behind. */
  ghost predicate Allowed(stack: seq<Handler>, op: Op) {
    match op
    case Push(h) => true
    case Mask(tag, behind) => Level(behind) < |Of(stack, tag)|
  }

  function Applied(stack: seq<Handler>, op: Op): seq<Handler> {
    match op
    case Push(h) => [h] + stack
    case Mask(tag, behind) => Without(stack, tag, Level(behind))
  }

  lemma {:induction false} StepModels(evs: seq<Handler>, stack: seq<Handler>, op: Op, evs': seq<Handler>)
    requires Models(evs, stack) && Allowed(stack, op) && StepTo(evs, op, evs')
    ensures Models(evs', Applied(stack, op))
  {
    hide Cmp, Models, IsIndex, Of, Without;
    match op
    case Push(h) =>
      var i: nat :| i <= |evs| && IsIndex(evs, h.tag, i) && evs' == evs[..i] + [h] + evs[i..];
      InsertModels(evs, stack, h, i);
    case Mask(tag, behind) =>
      var i: nat :| i <= |evs| && IsIndex(evs, tag, i) && Deleted(evs, i + Level(behind), evs');
      DeleteModels(evs, stack, tag, i, Level(behind));
      assert |evs| == 1 ==> evs[..0] + evs[1..] == [];
  }

  /** A run: `states[k]` is the evidence vector after the first `k` operations, and the matching
      handler stack is the result. */
  ghost predicate IsRun(states: seq<seq<Handler>>, ops: seq<Op>) {
    && |states| == |ops| + 1 && states[0] == []
    && forall k | 0 <= k < |ops| :: StepTo(states[k], ops[k], states[k + 1]) && Allowed(StackAfter(ops[..k]), ops[k])
  }

  function StackAfter(ops: seq<Op>): seq<Handler> {
    if ops == [] then [] else Applied(StackAfter(ops[..|ops| - 1]), ops[|ops| - 1])
  }

  /** After every run the evidence vector is right for the handler stack. */
  lemma {:induction false} RunModels(states: seq<seq<Handler>>, ops: seq<Op>, k: nat)
    requires IsRun(states, ops) && k <= |ops|
    ensures Models(states[k], StackAfter(ops[..k]))
  {
    if k > 0 {
      RunModels(states, ops, k - 1);
      StepModels(states[k - 1], StackAfter(ops[..k - 1]), ops[k - 1], states[k]);
      assert ops[..k][..k - 1] == ops[..k - 1];
    }
  }

  /** So at any time the index of a tag, plus a mask level, leads to the right handler. */
  lemma {:induction false} RunFinds(states: seq<seq<Handler>>, ops: seq<Op>, tag: Tag, i: nat, l: nat)
    requires IsRun(states, ops) && IsIndex(states[|ops|], tag, i)
    ensures l < |Of(StackAfter(ops), tag)| ==> i + l < |states[|ops|]| && states[|ops|][i + l] == Of(StackAfter(ops), tag)[l]
    ensures Of(StackAfter(ops), tag) == [] ==> i == |states[|ops|]| || states[|ops|][i].tag != tag
  {
    RunModels(states, ops, |ops|);
    assert ops[..|ops|] == ops;
    IndexFinds(states[|ops|], StackAfter(ops), tag, i, l);
  }
}
