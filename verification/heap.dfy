/** The reference-counted heap of the runtime: blocks with boxed fields, the meaning of a
    reference count, and what it means for every count to be exact. */
module Heap {
  import opened Options

  type Addr = nat

  /** A boxed field: the null box, any other unboxed value, or a pointer to a block. */
  datatype Box = Null | Val(n: int) | Ptr(a: Addr)

  /** A block: its scanned fields, its reference count, the `_field_idx` byte and the tag. */
  datatype Block = Block(fields: seq<Box>, rc: int, idx: nat, tag: nat)

  type Mem = map<Addr, Block>

  const INT32_MAX: int := 0x7FFF_FFFF
  const RC_STUCK: int := -0x8000_0000
  const RC_STICKY: int := RC_STUCK + 0x1000_0000
  const RC_STICKY_DROP: int := RC_STUCK + 0x2000_0000
  const RC_SHARED_UNIQUE: int := -1

  /** The largest field count that fits the header byte; from there on the count is field 0. */
  const SCAN_FSIZE_MAX: nat := 255

  predicate Sticky(rc: int) {
    rc <= RC_STICKY_DROP
  }

  /** `rc` stands for exactly `n` references: `rc + 1` when unshared, `-rc` when thread-shared;
      a sticky count says nothing. */
  predicate Counts(rc: int, n: nat) {
    if rc >= 0 then n == rc + 1 else Sticky(rc) || n == -rc
  }

  /** The reference that a box owns. */
  function Ref(v: Box): multiset<Addr> {
    if v.Ptr? then multiset{v.a} else multiset{}
  }

  predicate Shape(b: Block) {
    && RC_STUCK <= b.rc <= INT32_MAX
    && (|b.fields| >= SCAN_FSIZE_MAX ==> b.fields[0] == Val(|b.fields|))
  }

  /** All boxes in a collection of field lists, with multiplicity. */
  ghost function Boxes(own: map<Addr, seq<Box>>): multiset<Box> {
    if own == map[] then multiset{}
    else
      var a :| a in own;
      multiset(own[a]) + Boxes(own - {a})
  }

  lemma {:induction false} BoxesRemove(own: map<Addr, seq<Box>>, a: Addr)
    requires a in own
    ensures Boxes(own) == multiset(own[a]) + Boxes(own - {a})
    decreases |own|
  {
    var b :| b in own && Boxes(own) == multiset(own[b]) + Boxes(own - {b});
    if b != a {
      BoxesRemove(own - {b}, a);
      BoxesRemove(own - {a}, b);
      assert own - {b} - {a} == own - {a} - {b};
    }
  }

  lemma {:induction false} BoxesUpdate(own: map<Addr, seq<Box>>, a: Addr, s: seq<Box>)
    requires a in own
    ensures Boxes(own[a := s]) + multiset(own[a]) == Boxes(own) + multiset(s)
  {
    BoxesRemove(own, a);
    BoxesRemove(own[a := s], a);
    assert own[a := s] - {a} == own - {a};
  }

  lemma {:induction false} BoxesPop(own: map<Addr, seq<Box>>, a: Addr)
    requires a in own && own[a] != []
    ensures Boxes(own) == Boxes(own[a := own[a][1..]]) + multiset{own[a][0]}
  {
    var v, rest := own[a][0], own[a][1..];
    assert own[a] == [v] + rest;
    BoxesUpdate(own, a, rest);
    var p, q := Boxes(own), Boxes(own[a := rest]);
    assert multiset(own[a]) == multiset{v} + multiset(rest);
    forall x ensures p[x] == (q + multiset{v})[x] {
      assert (q + multiset(own[a]))[x] == (p + multiset(rest))[x];
    }
  }

  lemma {:induction false} BoxesAdd(own: map<Addr, seq<Box>>, a: Addr, s: seq<Box>)
    requires a !in own
    ensures Boxes(own[a := s]) == Boxes(own) + multiset(s)
  {
    BoxesRemove(own[a := s], a);
    assert own[a := s] - {a} == own;
  }

  lemma {:induction false} BoxesMember(own: map<Addr, seq<Box>>, a: Addr, x: Box)
    requires a in own && x in own[a]
    ensures x in Boxes(own)
  {
    BoxesRemove(own, a);
  }

  lemma {:induction false} BoxesOwner(own: map<Addr, seq<Box>>, x: Box) returns (a: Addr)
    requires x in Boxes(own)
    ensures a in own && x in own[a]
    decreases |own|
  {
    a :| a in own && Boxes(own) == multiset(own[a]) + Boxes(own - {a});
    if x !in own[a] {
      a := BoxesOwner(own - {a}, x);
    }
  }

  function FieldsOf(mem: Mem): map<Addr, seq<Box>> {
    map a | a in mem :: mem[a].fields
  }

  /** A snapshot of the heap. `own` is what each block still owns: all fields of a normal block,
      only the fields not yet released of a dying one. `held` are the references owned by
      running code (or by anything else outside the heap). */
  datatype State = State(mem: Mem, own: map<Addr, seq<Box>>, dying: set<Addr>, held: multiset<Addr>) {

    /** The number of references to `a`. */
    ghost function Refs(a: Addr): nat {
      held[a] + Boxes(own)[Ptr(a)]
    }

    /** Normal blocks have exact counts; dying blocks are unreferenced; freed ones too. */
    ghost predicate Inv() {
      && own.Keys == mem.Keys
      && dying <= mem.Keys
      && (forall a | a in mem :: Shape(mem[a]))
      && (forall a | a in mem && a !in dying :: own[a] == mem[a].fields && Counts(mem[a].rc, Refs(a)))
      && (forall a | a in dying :: mem[a].rc == 0 && Refs(a) == 0)
      && (forall a | a !in mem :: Refs(a) == 0)
    }

    /** What is still to be released: fields plus blocks. */
    ghost function Work(): nat {
      |Boxes(own)| + |own|
    }
  }

  /** Every count in `mem` is exact when running code holds the references `held`. */
  ghost predicate Exact(mem: Mem, held: multiset<Addr>) {
    State(mem, FieldsOf(mem), {}, held).Inv()
  }

  /** Releasing memory between `s` and `t` freed blocks and lowered counts, and nothing else:
      blocks that are still normal keep fields, index and tag, sticky blocks survive unchanged,
      no block turns sticky, and the dying blocks outside `mine` are untouched. */
  ghost predicate Released(s: State, t: State, mine: set<Addr>) {
    && t.mem.Keys <= s.mem.Keys
    && (forall a | a in t.mem && a !in t.dying ::
          a !in s.dying && t.mem[a] == s.mem[a].(rc := t.mem[a].rc) && Lowered(s.mem[a].rc, t.mem[a].rc))
    && (forall a | a in s.mem && a !in s.dying && Sticky(s.mem[a].rc) ::
          a in t.mem && a !in t.dying && t.mem[a] == s.mem[a])
    && (forall a | a in s.dying && a !in mine :: a in t.dying && SameAt(s, t, a))
  }

  /** Releasing references only takes a count towards uniqueness. */
  predicate Lowered(rc: int, rc': int) {
    && (Sticky(rc') <==> Sticky(rc))
    && (0 <= rc ==> 0 <= rc' <= rc)
  }

  ghost predicate SameAt(s: State, t: State, a: Addr) {
    && a in s.mem && a in t.mem && t.mem[a] == s.mem[a]
    && a in s.own && a in t.own && t.own[a] == s.own[a]
  }

  // ------- steps that releasing is made of -------

  /** The first remaining field of a dying block is taken out of it. */
  ghost function TakeField(s: State, b: Addr): State
    requires b in s.own && s.own[b] != []
  {
    var v := s.own[b][0];
    s.(own := s.own[b := s.own[b][1..]], held := if v.Ptr? then s.held + multiset{v.a} else s.held)
  }

  lemma {:induction false} TakeFieldKeepsInv(s: State, b: Addr)
    requires s.Inv() && b in s.dying && s.own[b] != []
    ensures TakeField(s, b).Inv()
  {
    hide Boxes, Counts;
    var t := TakeField(s, b);
    BoxesPop(s.own, b);
    forall a ensures t.Refs(a) == s.Refs(a) {}
  }

  lemma TakeFieldReleases(s: State, b: Addr)
    requires s.Inv() && b in s.dying && s.own[b] != []
    ensures Released(s, TakeField(s, b), {b})
  {
    hide Sticky, Counts, Shape, State.Refs;
    assert s.dying <= s.mem.Keys == s.own.Keys;
  }

  lemma TakeFieldWork(s: State, b: Addr)
    requires b in s.own && s.own[b] != []
    ensures TakeField(s, b).Work() == s.Work() - 1
  {
    BoxesPop(s.own, b);
    assert TakeField(s, b).own.Keys == s.own.Keys;
    assert |TakeField(s, b).own| == |s.own.Keys| == |s.own|;
  }

  /** A held reference is given up: the count drops by one, or the block starts dying. */
  predicate LastReference(rc: int) {
    rc == 0 || rc == RC_SHARED_UNIQUE
  }

  function Decremented(rc: int): int {
    if rc == 0 then 0 else if Sticky(rc) then rc else if rc < 0 then rc + 1 else rc - 1
  }

  ghost function GiveUp(s: State, a: Addr): State
    requires a in s.mem
  {
    var rc := s.mem[a].rc;
    State(s.mem[a := s.mem[a].(rc := Decremented(rc))], s.own,
          if LastReference(rc) then s.dying + {a} else s.dying, s.held - multiset{a})
  }

  lemma HeldIsNormal(s: State, a: Addr)
    requires s.Inv() && a in s.held
    ensures a in s.mem && a !in s.dying
  {
    assert s.Refs(a) > 0;
  }

  lemma GiveUpKeepsInv(s: State, a: Addr)
    requires s.Inv() && a in s.held
    ensures a in s.mem && a !in s.dying
    ensures GiveUp(s, a).Inv()
  {
    hide Boxes, Counts, Sticky, Decremented;
    HeldIsNormal(s, a);
    var t := GiveUp(s, a);
    var n := s.Refs(a);
    assert a in s.own && Shape(s.mem[a]) && Counts(s.mem[a].rc, n);
    CountsAfterGivingUp(s.mem[a].rc, n);
    forall x ensures t.Refs(x) == if x == a then n - 1 else s.Refs(x) {}
  }

  lemma HeldCounted(s: State, a: Addr)
    requires a in s.held
    ensures s.Refs(a) > 0
  {
  }

  lemma GiveUpReleases(s: State, a: Addr)
    requires s.Inv() && a in s.held
    ensures a in s.mem && a !in s.dying
    ensures Released(s, GiveUp(s, a), {})
  {
    hide Counts, Sticky, Decremented, State.Refs, Boxes;
    HeldIsNormal(s, a);
    assert s.dying <= s.mem.Keys == s.own.Keys;
    assert Shape(s.mem[a]) && Counts(s.mem[a].rc, s.Refs(a));
    HeldCounted(s, a);
    CountsAfterGivingUp(s.mem[a].rc, s.Refs(a));
  }

  lemma GiveUpWork(s: State, a: Addr)
    requires a in s.mem
    ensures GiveUp(s, a).Work() == s.Work()
  {
  }

  lemma CountsAfterGivingUp(rc: int, n: nat)
    requires RC_STUCK <= rc <= INT32_MAX && Counts(rc, n) && n > 0
    ensures RC_STUCK <= Decremented(rc) <= INT32_MAX
    ensures Lowered(rc, Decremented(rc))
    ensures Sticky(rc) ==> Decremented(rc) == rc && !LastReference(rc)
    ensures LastReference(rc) ==> n == 1 && Decremented(rc) == 0
    ensures !LastReference(rc) ==> Counts(Decremented(rc), n - 1)
  {
  }

  /** Which counts are sticky, and what the others stand for: only from -0x6000_0000 downwards does a
      count stay where it is. */
  lemma OnlyLowCountsStick(rc: int, n: nat)
    requires -0x8000_0000 <= rc <= 0x7FFF_FFFF
    ensures Sticky(rc) <==> rc <= -0x6000_0000
    ensures -0x6000_0000 < rc < 0 ==> (Counts(rc, n) <==> n == -rc)
    ensures rc >= 0 ==> (Counts(rc, n) <==> n == rc + 1)
    ensures -0x6000_0000 < rc < -1 ==> !LastReference(rc) && Decremented(rc) == rc + 1
    ensures rc > 0 ==> !LastReference(rc) && Decremented(rc) == rc - 1
    ensures rc == 0 || rc == -1 ==> LastReference(rc)
  {
  }

  /** In a heap with exact counts, the count of a block that is not sticky says how many references
      there are, in held references and in fields of blocks. */
  lemma {:induction false} ExactMeans(mem: Mem, held: multiset<Addr>, a: Addr)
    requires Exact(mem, held)
    ensures a in mem && mem[a].rc >= 0 ==> held[a] + Boxes(FieldsOf(mem))[Ptr(a)] == mem[a].rc + 1
    ensures a in mem && -0x6000_0000 < mem[a].rc < 0 ==> held[a] + Boxes(FieldsOf(mem))[Ptr(a)] == -mem[a].rc
    ensures a !in mem ==> a !in held && Ptr(a) !in Boxes(FieldsOf(mem))
  {
    hide Boxes;
    var s := State(mem, FieldsOf(mem), {}, held);
    if a in mem {
      assert Shape(mem[a]) && Counts(mem[a].rc, s.Refs(a));
      OnlyLowCountsStick(mem[a].rc, s.Refs(a));
    } else {
      assert s.Refs(a) == 0;
    }
  }

  /** A dying block that owns nothing any more is returned to the allocator. */
  ghost function Freed(s: State, b: Addr): State {
    s.(mem := s.mem - {b}, own := s.own - {b}, dying := s.dying - {b})
  }

  lemma {:induction false} FreeKeepsInv(s: State, b: Addr)
    requires s.Inv() && b in s.dying && (forall x | x in s.own[b] :: !x.Ptr?)
    ensures Freed(s, b).Inv()
  {
    hide Boxes, Counts, Shape;
    var t := Freed(s, b);
    BoxesRemove(s.own, b);
    assert forall a :: Ptr(a) in multiset(s.own[b]) ==> Ptr(a) in s.own[b];
    forall a ensures t.Refs(a) == s.Refs(a) {}
  }

  lemma FreeReleases(s: State, b: Addr)
    requires s.Inv() && b in s.dying
    ensures Released(s, Freed(s, b), {b})
  {
    hide Sticky, Counts, Shape, State.Refs;
    assert s.dying <= s.mem.Keys == s.own.Keys;
  }

  lemma FreeWork(s: State, b: Addr)
    requires b in s.own
    ensures Freed(s, b).Work() < s.Work()
  {
    var t := Freed(s, b);
    BoxesRemove(s.own, b);
    assert s.own.Keys == t.own.Keys + {b};
    assert |s.own| == |t.own| + 1;
  }

  lemma ReleasedTransitive(s: State, t: State, u: State, mine: set<Addr>, mine': set<Addr>)
    requires Released(s, t, mine) && Released(t, u, mine')
    requires forall a | a in mine' :: a in mine || a !in s.dying
    ensures Released(s, u, mine)
  {
  }

  // ------- parent links threaded through fields -------

  /** A possibly absent block as a box. */
  function Link(up: Option<Addr>): Box {
    if up.None? then Null else Ptr(up.value)
  }

  /** The block below position `k` of a stack, if any. */
  ghost function Above(stack: seq<Addr>, k: nat): Option<Addr>
    requires k <= |stack|
  {
    if k == 0 then None else Some(stack[k - 1])
  }

  // ------- reachability -------

  /** `p` follows pointer fields from block to block. */
  ghost predicate Path(mem: Mem, p: seq<Addr>) {
    && p != []
    && (forall k | 0 <= k < |p| :: p[k] in mem)
    && (forall k | 0 <= k < |p| - 1 :: Ptr(p[k + 1]) in mem[p[k]].fields)
  }

  ghost predicate Acyclic(mem: Mem) {
    forall p | Path(mem, p) && |p| > 1 :: p[0] != p[|p| - 1]
  }

  /** What keeps a block alive from outside: a held reference, or a sticky count. */
  predicate Rooted(mem: Mem, held: multiset<Addr>, a: Addr) {
    a in held || (a in mem && Sticky(mem[a].rc))
  }

  ghost predicate Reachable(mem: Mem, held: multiset<Addr>, a: Addr) {
    exists p :: Path(mem, p) && Rooted(mem, held, p[0]) && p[|p| - 1] == a
  }

  /** What is reachable, without paths: the smallest set with every rooted block in the heap that is
      closed under following fields. */
  lemma {:induction false} ReachableIsClosed(mem: Mem, held: multiset<Addr>, a: Addr, c: Addr)
    ensures a in mem && (a in held || mem[a].rc <= -0x6000_0000) ==> Reachable(mem, held, a)
    ensures Reachable(mem, held, a) ==> a in mem
    ensures Reachable(mem, held, a) && Ptr(c) in mem[a].fields && c in mem ==> Reachable(mem, held, c)
  {
    if a in mem && Rooted(mem, held, a) {
      assert Path(mem, [a]);
      assert [a][0] == a && [a][|[a]| - 1] == a;
    }
    if Reachable(mem, held, a) && Ptr(c) in mem[a].fields && c in mem {
      var p :| Path(mem, p) && Rooted(mem, held, p[0]) && p[|p| - 1] == a;
      PathAppend(mem, p, c);
      assert (p + [c])[0] == p[0] && (p + [c])[|p + [c]| - 1] == c;
    }
  }

  lemma {:induction false} ReachableIsLeast(mem: Mem, held: multiset<Addr>, inside: set<Addr>, a: Addr)
    requires forall b | b in mem && (b in held || mem[b].rc <= -0x6000_0000) :: b in inside
    requires forall b, c | b in mem && b in inside && c in mem && Ptr(c) in mem[b].fields :: c in inside
    requires Reachable(mem, held, a)
    ensures a in inside
  {
    var p :| Path(mem, p) && Rooted(mem, held, p[0]) && p[|p| - 1] == a;
    StaysInside(mem, p, inside, |p| - 1);
  }

  lemma {:induction false} StaysInside(mem: Mem, p: seq<Addr>, inside: set<Addr>, k: nat)
    requires Path(mem, p) && p[0] in inside && k < |p|
    requires forall b, c | b in mem && b in inside && c in mem && Ptr(c) in mem[b].fields :: c in inside
    ensures p[k] in inside
  {
    if k > 0 {
      StaysInside(mem, p, inside, k - 1);
      assert Ptr(p[k - 1 + 1]) in mem[p[k - 1]].fields;
    }
  }

  lemma {:induction false} PathSurvives(s: State, t: State, p: seq<Addr>, k: nat)
    requires t.Inv() && s.dying == t.dying == {} && Released(s, t, {})
    requires Path(s.mem, p) && Rooted(s.mem, t.held, p[0]) && k < |p|
    ensures p[k] in t.mem
  {
    if k == 0 {
      if p[0] in t.held {
        HeldIsNormal(t, p[0]);
      }
    } else {
      PathSurvives(s, t, p, k - 1);
      var b := p[k - 1];
      assert Ptr(p[k]) in s.mem[b].fields;
      assert t.mem[b].fields == s.mem[b].fields;
      BoxesMember(t.own, b, Ptr(p[k]));
      assert t.Refs(p[k]) > 0;
    }
  }

  /** Releasing never frees a block that is still reachable. */
  lemma {:induction false} ReachableSurvives(s: State, t: State, a: Addr)
    requires t.Inv() && s.dying == t.dying == {} && Released(s, t, {})
    requires Reachable(s.mem, t.held, a)
    ensures a in t.mem
  {
    var p :| Path(s.mem, p) && Rooted(s.mem, t.held, p[0]) && p[|p| - 1] == a;
    PathSurvives(s, t, p, |p| - 1);
  }

  lemma {:induction false} AcyclicPathIsShort(mem: Mem, p: seq<Addr>)
    requires Acyclic(mem) && Path(mem, p)
    ensures |p| <= |mem|
  {
    AcyclicPathIsDistinct(mem, p);
    DistinctFit(p, mem.Keys);
  }

  lemma {:induction false} DistinctFit(p: seq<Addr>, s: set<Addr>)
    requires (forall i, j | 0 <= i < j < |p| :: p[i] != p[j]) && (forall k | 0 <= k < |p| :: p[k] in s)
    ensures |p| <= |s|
  {
    if p != [] {
      DistinctFit(p[1..], s - {p[0]});
    }
  }

  lemma {:induction false} PathPrepend(mem: Mem, b: Addr, p: seq<Addr>)
    requires Path(mem, p) && b in mem && Ptr(p[0]) in mem[b].fields
    ensures Path(mem, [b] + p)
  {
    var q := [b] + p;
    forall k | 0 <= k < |q| - 1
      ensures Ptr(q[k + 1]) in mem[q[k]].fields
    {
      if k > 0 {
        assert Ptr(p[k - 1 + 1]) in mem[p[k - 1]].fields;
      }
    }
  }

  lemma {:induction false} PathAppend(mem: Mem, p: seq<Addr>, c: Addr)
    requires Path(mem, p) && c in mem && Ptr(c) in mem[p[|p| - 1]].fields
    ensures Path(mem, p + [c])
  {
    var q := p + [c];
    forall k | 0 <= k < |q| - 1
      ensures Ptr(q[k + 1]) in mem[q[k]].fields
    {
      if k < |p| - 1 {
        assert Ptr(p[k + 1]) in mem[p[k]].fields;
      }
    }
  }

  lemma {:induction false} AcyclicPathIsDistinct(mem: Mem, p: seq<Addr>)
    requires Acyclic(mem) && Path(mem, p)
    ensures forall i, j | 0 <= i < j < |p| :: p[i] != p[j]
  {
    forall i, j | 0 <= i < j < |p|
      ensures p[i] != p[j]
    {
      var q := p[i..j + 1];
      assert Path(mem, q);
      assert q[0] == p[i] && q[|q| - 1] == p[j];
    }
  }

  /** In an acyclic heap with exact counts every block can be traced back to a root. */
  lemma {:induction false} TraceBack(s: State, t: State, p: seq<Addr>)
    requires t.Inv() && s.dying == t.dying == {} && Released(s, t, {})
    requires Acyclic(s.mem) && Path(s.mem, p) && p[0] in t.mem
    ensures Reachable(s.mem, t.held, p[|p| - 1])
    decreases |s.mem| - |p|
  {
    var a := p[0];
    AcyclicPathIsShort(s.mem, p);
    if !Rooted(s.mem, t.held, a) {
      assert Counts(t.mem[a].rc, t.Refs(a)) && t.Refs(a) > 0;
      var b := BoxesOwner(t.own, Ptr(a));
      assert s.mem[b].fields == t.mem[b].fields;
      var q := [b] + p;
      PathPrepend(s.mem, b, p);
      AcyclicPathIsShort(s.mem, q);
      TraceBack(s, t, q);
      assert q[|q| - 1] == p[|p| - 1];
    }
  }

  /** On an acyclic heap exactly the blocks still reachable survive. */
  lemma {:induction false} SurvivorsAreTheReachable(s: State, t: State)
    requires t.Inv() && s.dying == t.dying == {} && Released(s, t, {})
    requires Acyclic(s.mem)
    ensures forall a :: a in t.mem <==> Reachable(s.mem, t.held, a)
  {
    forall a
      ensures a in t.mem <==> Reachable(s.mem, t.held, a)
    {
      if a in t.mem {
        assert Path(s.mem, [a]);
        TraceBack(s, t, [a]);
      }
      if Reachable(s.mem, t.held, a) {
        ReachableSurvives(s, t, a);
      }
    }
  }
}
