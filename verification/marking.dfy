/** Marking everything reachable from a block as thread-shared, without a stack: pointers are
    reversed on the way down and the next field index lives in 8 bits stolen from the count. */
module Marking {
  import opened Options
  import opened Heap

  const RC_MARK_MAX: int := 0x007F_FFFF

  datatype Label = Recurse | MarkFields | MoveUp | Done

  // ------- reference counts while marking -------

  function Shared(rc: int): int {
    if -rc <= RC_STICKY_DROP then RC_STICKY else -rc
  }

  function Prepared(rc: int): int {
    (if rc > RC_MARK_MAX then RC_MARK_MAX else rc) * 256
  }

  function WithIndex(rc: int, i: nat): int {
    rc / 256 * 256 + i
  }

  function Restored(rc: int): int {
    var r := rc / 256;
    if r >= RC_MARK_MAX then INT32_MAX else r
  }

  /** A block after it was marked: leaves are shared directly, the others lose large counts. */
  function Marked(b: Block): Block {
    b.(rc := if b.fields == [] then Shared(b.rc) else Shared(Restored(Prepared(b.rc))))
  }

  /** The mark index never disturbs the count it shares a word with, and the word never
      leaves the range of unshared counts. */
  lemma MarkIndexRoundTrip(rc: int, i: nat, j: nat)
    requires 0 <= rc <= INT32_MAX && i < 256 && j < 256
    ensures var w := WithIndex(WithIndex(Prepared(rc), i), j);
      && w == WithIndex(Prepared(rc), j) && 0 <= w <= INT32_MAX && w % 256 == j && Restored(w) == Restored(Prepared(rc))
  {
  }

  /** What marking does to a count: negated while it fits, sticky from the cap on. */
  lemma MarkedCount(b: Block)
    requires 0 <= b.rc <= INT32_MAX
    ensures b.fields != [] ==> Marked(b).rc == if b.rc < 0x7F_FFFF then -b.rc else -0x7000_0000
    ensures b.fields == [] ==> Marked(b).rc == if b.rc < 0x6000_0000 then -b.rc else -0x7000_0000
    ensures Marked(b).fields == b.fields && Marked(b).idx == b.idx && Marked(b).tag == b.tag
    ensures Marked(b).rc >= 0 <==> b.rc == 0
    ensures b.rc == 0 ==> Marked(b) == b
  {
  }

  // ------- what has to be marked -------

  /** A heap of unshared or shared blocks, all small enough for a mark index, without dangling pointers. */
  ghost predicate Markable(mem: Mem) {
    && Acyclic(mem)
    && (forall a | a in mem :: RC_STUCK <= mem[a].rc <= INT32_MAX && |mem[a].fields| < SCAN_FSIZE_MAX)
    && (forall a, c | a in mem && Ptr(c) in mem[a].fields :: c in mem)
  }

  predicate Unshared(mem: Mem, a: Addr) {
    a in mem && mem[a].rc >= 0
  }

  /** Marking stops at blocks that are thread-shared already. */
  ghost predicate MarkPath(mem: Mem, p: seq<Addr>) {
    Path(mem, p) && forall k | 0 <= k < |p| :: mem[p[k]].rc >= 0
  }

  ghost predicate ToMark(mem: Mem, root: Addr, a: Addr) {
    exists p :: MarkPath(mem, p) && p[0] == root && p[|p| - 1] == a
  }

  /** What has to be marked, without paths: the smallest set with an unshared root that is closed under
      following fields to unshared blocks. */
  lemma {:induction false} ToMarkIsClosed(mem: Mem, root: Addr, a: Addr, c: Addr)
    ensures root in mem && mem[root].rc >= 0 ==> ToMark(mem, root, root)
    ensures ToMark(mem, root, a) ==> a in mem && mem[a].rc >= 0
    ensures ToMark(mem, root, a) && Ptr(c) in mem[a].fields && c in mem && mem[c].rc >= 0 ==> ToMark(mem, root, c)
  {
    if root in mem && mem[root].rc >= 0 {
      var p := [root];
      assert MarkPath(mem, p) && p[0] == root && p[|p| - 1] == root;
    }
    if ToMark(mem, root, a) && Ptr(c) in mem[a].fields && c in mem && mem[c].rc >= 0 {
      var p :| MarkPath(mem, p) && p[0] == root && p[|p| - 1] == a;
      PathAppend(mem, p, c);
      var q := p + [c];
      assert MarkPath(mem, q) && q[0] == root && q[|q| - 1] == c;
    }
  }

  lemma {:induction false} ToMarkIsLeast(mem: Mem, root: Addr, inside: set<Addr>, a: Addr)
    requires root in inside && ToMark(mem, root, a)
    requires forall b, c | b in mem && b in inside && c in mem && mem[c].rc >= 0 && Ptr(c) in mem[b].fields :: c in inside
    ensures a in inside
  {
    var p :| MarkPath(mem, p) && p[0] == root && p[|p| - 1] == a;
    StaysAmong(mem, p, inside, |p| - 1);
  }

  lemma {:induction false} StaysAmong(mem: Mem, p: seq<Addr>, inside: set<Addr>, k: nat)
    requires MarkPath(mem, p) && p[0] in inside && k < |p|
    requires forall b, c | b in mem && b in inside && c in mem && mem[c].rc >= 0 && Ptr(c) in mem[b].fields :: c in inside
    ensures p[k] in inside
  {
    if k > 0 {
      StaysAmong(mem, p, inside, k - 1);
      assert Ptr(p[k - 1 + 1]) in mem[p[k - 1]].fields;
    }
  }

  // ------- the reversed path -------

  /** Block `a` on the reversed path: field `i - 1`, through which marking went down to `next`,
      holds the link up; `i` is in the low bits of the count. */
  ghost predicate Reversed(m0: Mem, m: Mem, a: Addr, up: Option<Addr>, next: Addr) {
    && a in m0 && a in m && 0 <= m0[a].rc
    && var i := m[a].rc % 256;
    && 0 < i <= |m0[a].fields|
    && m0[a].fields[i - 1] == Ptr(next)
    && m[a] == m0[a].(fields := m0[a].fields[i - 1 := Link(up)], rc := WithIndex(Prepared(m0[a].rc), i))
  }

  function Below(stack: seq<Addr>, b: Addr, k: nat): Addr
    requires k < |stack|
  {
    (stack + [b])[k + 1]
  }

  /** Child `c` is taken care of: it is done, or still in progress. */
  predicate Covered(stack: seq<Addr>, b: Addr, done: set<Addr>, c: Addr) {
    c in done || c in stack || c == b
  }

  ghost predicate FieldsCovered(m0: Mem, stack: seq<Addr>, b: Addr, done: set<Addr>, a: Addr, n: nat) {
    a in m0 && n <= |m0[a].fields| &&
    forall j | 0 <= j < n :: m0[a].fields[j].Ptr? && Unshared(m0, m0[a].fields[j].a) ==> Covered(stack, b, done, m0[a].fields[j].a)
  }

  ghost predicate OnStack(m0: Mem, m: Mem, stack: seq<Addr>, b: Addr, done: set<Addr>, k: nat)
    requires k < |stack|
  {
    && Reversed(m0, m, stack[k], Above(stack, k), Below(stack, b, k))
    && FieldsCovered(m0, stack, b, done, stack[k], m[stack[k]].rc % 256 - 1)
  }

  /** Everywhere off the path blocks are untouched or marked, and marked ones are closed. */
  ghost predicate OffPath(m0: Mem, m: Mem, stack: seq<Addr>, b: Addr, done: set<Addr>, a: Addr)
    requires a in m0
  {
    && a in m
    && (if a in done then m[a] == Marked(m0[a]) else m[a] == m0[a])
    && (a in done ==> FieldsCovered(m0, stack, b, done, a, |m0[a].fields|))
  }

  /** In the middle of marking from `root`: `stack` leads to the current block `b`. */
  ghost predicate InProgress(m0: Mem, m: Mem, root: Addr, stack: seq<Addr>, parent: Option<Addr>, b: Addr, done: set<Addr>) {
    && m.Keys == m0.Keys
    && parent == Above(stack, |stack|)
    && MarkPath(m0, stack + [b]) && (stack + [b])[0] == root
    && (forall k | 0 <= k < |stack| :: OnStack(m0, m, stack, b, done, k))
    && (forall a | a in m0 && a !in stack && a != b :: OffPath(m0, m, stack, b, done, a))
    && (forall a | a in done :: a in m0 && m0[a].rc >= 0 && ToMark(m0, root, a))
  }

  /** The current block before, during and after the scan of its fields. */
  ghost predicate Scanning(m0: Mem, m: Mem, stack: seq<Addr>, b: Addr, done: set<Addr>, i: nat) {
    && b in m0 && b in m && m0[b].rc >= 0
    && m[b] == m0[b].(rc := WithIndex(Prepared(m0[b].rc), m[b].rc % 256))
    && FieldsCovered(m0, stack, b, done, b, i)
  }

  ghost predicate Finished(m0: Mem, m: Mem, stack: seq<Addr>, b: Addr, done: set<Addr>) {
    b in m0 && b in m && b in done && m[b] == Marked(m0[b]) && FieldsCovered(m0, stack, b, done, b, |m0[b].fields|)
  }

  // ------- work that is left, as the size of the unfolded graph -------

  ghost function FieldCost(m0: Mem, p: seq<Addr>, i: nat): (cost: nat)
    requires Markable(m0) && Path(m0, p) && i < |m0[p[|p| - 1]].fields|
    ensures cost >= 1
    decreases |m0| - |p|, |m0[p[|p| - 1]].fields| - i, 0
  {
    var v := m0[p[|p| - 1]].fields[i];
    if !v.Ptr? then 1
    else
      PathAppend(m0, p, v.a);
      AcyclicPathIsShort(m0, p + [v.a]);
      3 + RestCost(m0, p + [v.a], 0)
  }

  /** The cost of the fields from `i` on of the last block of `p`. */
  ghost function RestCost(m0: Mem, p: seq<Addr>, i: nat): nat
    requires Markable(m0) && Path(m0, p) && i <= |m0[p[|p| - 1]].fields|
    decreases |m0| - |p|, |m0[p[|p| - 1]].fields| - i, 1
  {
    if i == |m0[p[|p| - 1]].fields| then 0 else FieldCost(m0, p, i) + RestCost(m0, p, i + 1)
  }

  ghost predicate CostDefined(m0: Mem, m: Mem, stack: seq<Addr>) {
    && Markable(m0)
    && (stack != [] ==> Path(m0, stack))
    && (forall k | 0 <= k < |stack| :: stack[k] in m && m[stack[k]].rc % 256 <= |m0[stack[k]].fields|)
  }

  /** The cost of what the blocks of the reversed path still have to scan. */
  ghost function StackCost(m0: Mem, m: Mem, stack: seq<Addr>): nat
    requires CostDefined(m0, m, stack)
  {
    if stack == [] then 0
    else
      var n := |stack| - 1;
      PathPrefix(m0, stack);
      StackCost(m0, m, stack[..n]) + 1 + RestCost(m0, stack, m[stack[n]].rc % 256)
  }

  lemma {:induction false} PathPrefix(m0: Mem, p: seq<Addr>)
    requires Path(m0, p)
    ensures var q := p[..|p| - 1]; q != [] ==> Path(m0, q)
  {
    var q := p[..|p| - 1];
    forall k | 0 <= k < |q| - 1
      ensures Ptr(q[k + 1]) in m0[q[k]].fields
    {
      assert q[k + 1] == p[k + 1] && q[k] == p[k];
    }
  }

  lemma {:induction false} StackCostFrame(m0: Mem, m: Mem, m': Mem, stack: seq<Addr>)
    requires CostDefined(m0, m, stack)
    requires forall k | 0 <= k < |stack| :: stack[k] in m' && m'[stack[k]].rc == m[stack[k]].rc
    ensures CostDefined(m0, m', stack) && StackCost(m0, m', stack) == StackCost(m0, m, stack)
  {
    if stack != [] {
      PathPrefix(m0, stack);
      StackCostFrame(m0, m, m', stack[..|stack| - 1]);
    }
  }

  // ------- the steps of the marker keep the invariant -------

  lemma {:induction false} ChildOffPath(m0: Mem, m: Mem, root: Addr, stack: seq<Addr>, parent: Option<Addr>, b: Addr, done: set<Addr>, c: Addr)
    requires Markable(m0) && InProgress(m0, m, root, stack, parent, b, done)
    requires Ptr(c) in m0[b].fields
    ensures c in m0 && c !in stack && c != b
    ensures c in m && OffPath(m0, m, stack, b, done, c)
    ensures m[c].rc >= 0 ==> m[c] == m0[c]
    ensures m[c].rc < 0 ==> c in done || !Unshared(m0, c)
  {
    hide OnStack, FieldsCovered;
    PathAppend(m0, stack + [b], c);
    AcyclicPathIsDistinct(m0, stack + [b] + [c]);
    var p := stack + [b] + [c];
    forall k | 0 <= k < |stack|
      ensures stack[k] != c
    {
      assert p[k] == stack[k] && p[|p| - 1] == c;
    }
    assert p[|stack|] == b && p[|p| - 1] == c;
    assert OffPath(m0, m, stack, b, done, c);
    if c in done {
      MarkedCount(m0[c]);
    }
  }

  lemma {:induction false} CoveredByMore(m0: Mem, stack: seq<Addr>, b: Addr, done: set<Addr>, stack': seq<Addr>, b': Addr, done': set<Addr>, a: Addr, n: nat)
    requires FieldsCovered(m0, stack, b, done, a, n)
    requires forall x | x in done || x in stack || x == b :: x in done' || x in stack' || x == b'
    ensures FieldsCovered(m0, stack', b', done', a, n)
  {
  }

  lemma {:induction false} ToMarkByPath(m0: Mem, root: Addr, stack: seq<Addr>, b: Addr)
    requires MarkPath(m0, stack + [b]) && (stack + [b])[0] == root
    ensures ToMark(m0, root, b)
  {
    var p := stack + [b];
    assert p[|p| - 1] == b;
  }

  lemma {:induction false} ToMarkChild(m0: Mem, root: Addr, stack: seq<Addr>, b: Addr, c: Addr)
    requires MarkPath(m0, stack + [b]) && (stack + [b])[0] == root
    requires b in m0 && Ptr(c) in m0[b].fields && Unshared(m0, c)
    ensures MarkPath(m0, stack + [b] + [c]) && (stack + [b] + [c])[0] == root && ToMark(m0, root, c)
  {
    PathAppend(m0, stack + [b], c);
    ToMarkByPath(m0, root, stack + [b], c);
  }

  /** Marking one more block off the path, whose fields are covered. */
  lemma {:induction false} MarkOne(m0: Mem, m: Mem, root: Addr, stack: seq<Addr>, parent: Option<Addr>, b: Addr, done: set<Addr>, c: Addr)
    requires Markable(m0) && InProgress(m0, m, root, stack, parent, b, done)
    requires c in m0 && c !in stack && Unshared(m0, c) && ToMark(m0, root, c)
    requires FieldsCovered(m0, stack, b, done, c, |m0[c].fields|)
    ensures InProgress(m0, m[c := Marked(m0[c])], root, stack, parent, b, done + {c})
  {
    hide MarkPath, FieldsCovered, Reversed, ToMark;
    var m', done' := m[c := Marked(m0[c])], done + {c};
    forall k | 0 <= k < |stack|
      ensures OnStack(m0, m', stack, b, done', k)
    {
      assert OnStack(m0, m, stack, b, done, k);
      assert stack[k] in m && stack[k] != c by { PathMembers(m0, stack, b, k); }
      StillReversed(m0, m, m', stack[k], Above(stack, k), Below(stack, b, k));
      CoveredByMore(m0, stack, b, done, stack, b, done', stack[k], m[stack[k]].rc % 256 - 1);
    }
    forall a | a in m0 && a !in stack && a != b
      ensures OffPath(m0, m', stack, b, done', a)
    {
      assert OffPath(m0, m, stack, b, done, a);
      if a in done {
        CoveredByMore(m0, stack, b, done, stack, b, done', a, |m0[a].fields|);
      }
      if a == c {
        CoveredByMore(m0, stack, b, done, stack, b, done', a, |m0[a].fields|);
      }
    }
  }

  lemma StillReversed(m0: Mem, m: Mem, m': Mem, a: Addr, up: Option<Addr>, next: Addr)
    requires Reversed(m0, m, a, up, next) && a in m' && m'[a] == m[a]
    ensures Reversed(m0, m', a, up, next) && a in m && m'[a].rc % 256 > 0
  {
  }

  lemma {:induction false} NextField(m0: Mem, m: Mem, stack: seq<Addr>, b: Addr, done: set<Addr>, done': set<Addr>, i: nat)
    requires Scanning(m0, m, stack, b, done, i) && i < |m0[b].fields| && done <= done'
    requires m0[b].fields[i].Ptr? && Unshared(m0, m0[b].fields[i].a) ==> m0[b].fields[i].a in done'
    ensures FieldsCovered(m0, stack, b, done', b, i + 1)
  {
  }

  /** Going down into child `c` through field `i` of `b`. */
  function Down(m: Mem, b: Addr, i: nat, parent: Option<Addr>): Mem
    requires b in m && i < |m[b].fields|
  {
    m[b := m[b].(fields := m[b].fields[i := Link(parent)], rc := WithIndex(m[b].rc, i + 1))]
  }

  lemma {:induction false} DownReverses(m0: Mem, m: Mem, stack: seq<Addr>, parent: Option<Addr>, b: Addr, done: set<Addr>, i: nat, c: Addr)
    requires Markable(m0) && Scanning(m0, m, stack, b, done, i) && i < |m0[b].fields| && m0[b].fields[i] == Ptr(c)
    ensures Reversed(m0, Down(m, b, i, parent), b, parent, c)
    ensures Down(m, b, i, parent)[b].rc % 256 == i + 1
  {
    MarkIndexRoundTrip(m0[b].rc, m[b].rc % 256, i + 1);
  }

  lemma {:induction false} GoDown(m0: Mem, m: Mem, root: Addr, stack: seq<Addr>, parent: Option<Addr>, b: Addr, done: set<Addr>, i: nat, c: Addr)
    requires Markable(m0) && InProgress(m0, m, root, stack, parent, b, done) && Scanning(m0, m, stack, b, done, i)
    requires i < |m0[b].fields| && m0[b].fields[i] == Ptr(c) && c in m && m[c].rc >= 0
    ensures InProgress(m0, Down(m, b, i, parent), root, stack + [b], Some(b), c, done)
    ensures c in m0 && c in Down(m, b, i, parent) && Down(m, b, i, parent)[c] == m0[c]
  {
    hide MarkPath, FieldsCovered, Reversed, ToMark;
    var m', stack' := Down(m, b, i, parent), stack + [b];
    ChildOffPath(m0, m, root, stack, parent, b, done, c);
    ToMarkChild(m0, root, stack, b, c);
    DownReverses(m0, m, stack, parent, b, done, i, c);
    forall k | 0 <= k < |stack'|
      ensures OnStack(m0, m', stack', c, done, k)
    {
      if k < |stack| {
        assert OnStack(m0, m, stack, b, done, k);
        assert Below(stack, b, k) == Below(stack', c, k) && stack'[k] == stack[k] && Above(stack, k) == Above(stack', k);
        PathDistinct(m0, stack, b, k);
        StillReversed(m0, m, m', stack[k], Above(stack, k), Below(stack, b, k));
        CoveredByMore(m0, stack, b, done, stack', c, done, stack[k], m[stack[k]].rc % 256 - 1);
      } else {
        CoveredByMore(m0, stack, b, done, stack', c, done, b, i);
      }
    }
    forall a | a in m0 && a !in stack' && a != c
      ensures OffPath(m0, m', stack', c, done, a)
    {
      assert OffPath(m0, m, stack, b, done, a);
      if a in done {
        CoveredByMore(m0, stack, b, done, stack', c, done, a, |m0[a].fields|);
      }
    }
  }

  lemma PathMembers(m0: Mem, stack: seq<Addr>, b: Addr, k: nat)
    requires MarkPath(m0, stack + [b]) && k < |stack|
    ensures stack[k] in m0
  {
    assert (stack + [b])[k] == stack[k];
  }

  lemma {:induction false} PathDistinct(m0: Mem, stack: seq<Addr>, b: Addr, k: nat)
    requires Acyclic(m0) && MarkPath(m0, stack + [b]) && k < |stack|
    ensures stack[k] != b && stack[k] in m0 && forall j | 0 <= j < |stack| && j != k :: stack[j] != stack[k]
  {
    var p := stack + [b];
    AcyclicPathIsDistinct(m0, p);
    assert p[k] == stack[k] && p[|stack|] == b;
    forall j | 0 <= j < |stack| && j != k
      ensures stack[j] != stack[k]
    {
      assert p[j] == stack[j];
    }
  }

  /** All fields are scanned: the current block becomes marked. */
  lemma {:induction false} Finish(m0: Mem, m: Mem, root: Addr, stack: seq<Addr>, parent: Option<Addr>, b: Addr, done: set<Addr>)
    requires Markable(m0) && InProgress(m0, m, root, stack, parent, b, done)
    requires Scanning(m0, m, stack, b, done, |m0[b].fields|) && m0[b].fields != []
    ensures m[b].(rc := Shared(Restored(m[b].rc))) == Marked(m0[b])
    ensures InProgress(m0, m[b := Marked(m0[b])], root, stack, parent, b, done + {b})
    ensures Finished(m0, m[b := Marked(m0[b])], stack, b, done + {b})
  {
    MarkIndexRoundTrip(m0[b].rc, 0, m[b].rc % 256);
    ToMarkByPath(m0, root, stack, b);
    BNotOnStack(m0, stack, b);
    MarkOne(m0, m, root, stack, parent, b, done, b);
    CoveredByMore(m0, stack, b, done, stack, b, done + {b}, b, |m0[b].fields|);
  }

  lemma {:induction false} BNotOnStack(m0: Mem, stack: seq<Addr>, b: Addr)
    requires Acyclic(m0) && MarkPath(m0, stack + [b])
    ensures b !in stack
  {
    forall k | 0 <= k < |stack|
      ensures stack[k] != b
    {
      PathDistinct(m0, stack, b, k);
    }
  }

  /** Coming back to the parent `a` restores its pointer to `b`. */
  function Up(m: Mem, a: Addr, i: nat, b: Addr): Mem
    requires a in m && 0 < i <= |m[a].fields|
  {
    m[a := m[a].(fields := m[a].fields[i - 1 := Ptr(b)])]
  }

  lemma {:induction false} GoUp(m0: Mem, m: Mem, root: Addr, stack: seq<Addr>, b: Addr, done: set<Addr>, a: Addr)
    requires Markable(m0) && InProgress(m0, m, root, stack, Some(a), b, done) && Finished(m0, m, stack, b, done)
    ensures stack != [] && a == stack[|stack| - 1] && a in m && a in m0
    ensures var i := m[a].rc % 256;
      && 0 < i <= |m[a].fields| == |m0[a].fields|
      && m[a].fields[i - 1] == Link(Above(stack, |stack| - 1))
      && InProgress(m0, Up(m, a, i, b), root, stack[..|stack| - 1], Above(stack, |stack| - 1), a, done)
      && Scanning(m0, Up(m, a, i, b), stack[..|stack| - 1], a, done, i)
  {
    hide MarkPath, ToMark, FieldsCovered, Reversed;
    var n := |stack| - 1;
    var rest := stack[..n];
    assert stack == rest + [a];
    assert OnStack(m0, m, stack, b, done, n);
    TopReversed(m0, m, a, Above(stack, n), b);
    var i := m[a].rc % 256;
    TopCovered(m0, stack, b, done, rest, a, i);
    PrefixIsPath(m0, stack, b, root);
    GoUpKeeps(m0, m, root, stack, rest, b, done, a);
  }

  lemma TopReversed(m0: Mem, m: Mem, a: Addr, up: Option<Addr>, b: Addr)
    requires Reversed(m0, m, a, up, b)
    ensures a in m && a in m0 && 0 <= m0[a].rc
    ensures var i := m[a].rc % 256;
      && 0 < i <= |m[a].fields| == |m0[a].fields| && m0[a].fields[i - 1] == Ptr(b)
      && m[a].fields[i - 1] == Link(up)
      && Up(m, a, i, b)[a] == m0[a].(rc := WithIndex(Prepared(m0[a].rc), i))
      && Up(m, a, i, b)[a].rc == m[a].rc
  {
    var i := m[a].rc % 256;
    assert m0[a].fields[i - 1 := Link(up)][i - 1 := Ptr(b)] == m0[a].fields;
  }

  lemma {:induction false} GoUpKeeps(m0: Mem, m: Mem, root: Addr, stack: seq<Addr>, rest: seq<Addr>, b: Addr, done: set<Addr>, a: Addr)
    requires Markable(m0) && InProgress(m0, m, root, stack, Some(a), b, done) && Finished(m0, m, stack, b, done)
    requires stack == rest + [a] && a in m && 0 < m[a].rc % 256 <= |m[a].fields|
    requires MarkPath(m0, stack) && stack[0] == root
    ensures InProgress(m0, Up(m, a, m[a].rc % 256, b), root, rest, Above(rest, |rest|), a, done)
  {
    hide MarkPath, ToMark, FieldsCovered, Reversed, Acyclic;
    var m' := Up(m, a, m[a].rc % 256, b);
    assert m'.Keys == m.Keys;
    PathDistinct(m0, stack, b, |rest|);
    forall k | 0 <= k < |rest|
      ensures OnStack(m0, m', rest, a, done, k)
    {
      assert OnStack(m0, m, stack, b, done, k);
      assert stack[k] == rest[k] && stack[k] != a;
      assert stack[k] in m by { PathMembers(m0, stack, b, k); }
      assert Above(rest, k) == Above(stack, k) && Below(rest, a, k) == Below(stack, b, k);
      StillReversed(m0, m, m', stack[k], Above(stack, k), Below(stack, b, k));
      CoveredByMore(m0, stack, b, done, rest, a, done, stack[k], m[stack[k]].rc % 256 - 1);
    }
    forall x | x in m0 && x !in rest && x != a
      ensures OffPath(m0, m', rest, a, done, x)
    {
      assert x == b || OffPath(m0, m, stack, b, done, x);
      if x in done {
        CoveredByMore(m0, stack, b, done, rest, a, done, x, |m0[x].fields|);
      }
    }
  }

  lemma {:induction false} TopCovered(m0: Mem, stack: seq<Addr>, b: Addr, done: set<Addr>, rest: seq<Addr>, a: Addr, i: nat)
    requires stack == rest + [a] && 0 < i && FieldsCovered(m0, stack, b, done, a, i - 1) && i <= |m0[a].fields|
    requires m0[a].fields[i - 1] == Ptr(b) && b in done
    ensures FieldsCovered(m0, rest, a, done, a, i)
  {
  }

  lemma {:induction false} PrefixIsPath(m0: Mem, stack: seq<Addr>, b: Addr, root: Addr)
    requires stack != [] && MarkPath(m0, stack + [b]) && (stack + [b])[0] == root
    ensures MarkPath(m0, stack) && stack[0] == root
  {
    var p := stack + [b];
    assert forall k | 0 <= k < |stack| :: p[k] == stack[k];
    forall k | 0 <= k < |stack| - 1
      ensures Ptr(stack[k + 1]) in m0[stack[k]].fields
    {
      assert p[k + 1] == stack[k + 1] && p[k] == stack[k];
    }
  }

  /** When the path is used up, exactly the blocks to be marked are marked. */
  lemma {:induction false} AllMarked(m0: Mem, m: Mem, root: Addr, stack: seq<Addr>, b: Addr, done: set<Addr>)
    requires Markable(m0) && InProgress(m0, m, root, stack, None, b, done) && Finished(m0, m, stack, b, done)
    ensures m.Keys == m0.Keys
    ensures forall a | a in m0 :: m[a] == if ToMark(m0, root, a) then Marked(m0[a]) else m0[a]
  {
    assert stack == [];
    assert b == root;
    forall a | a in m0
      ensures a in m && m[a] == if ToMark(m0, root, a) then Marked(m0[a]) else m0[a]
    {
      assert a == b || OffPath(m0, m, stack, b, done, a);
      if ToMark(m0, root, a) {
        var p :| MarkPath(m0, p) && p[0] == root && p[|p| - 1] == a;
        DoneIsClosed(m0, m, root, b, done, p, |p| - 1);
      }
    }
  }

  lemma {:induction false} DoneIsClosed(m0: Mem, m: Mem, root: Addr, b: Addr, done: set<Addr>, p: seq<Addr>, k: nat)
    requires InProgress(m0, m, root, [], None, b, done) && Finished(m0, m, [], b, done)
    requires MarkPath(m0, p) && p[0] == b && k < |p|
    ensures p[k] in done
  {
    if k > 0 {
      DoneIsClosed(m0, m, root, b, done, p, k - 1);
      assert Ptr(p[k - 1 + 1]) in m0[p[k - 1]].fields;
      var j :| 0 <= j < |m0[p[k - 1]].fields| && m0[p[k - 1]].fields[j] == Ptr(p[k]);
      assert p[k - 1] == b || OffPath(m0, m, [], b, done, p[k - 1]);
    }
  }

  // ------- the marker terminates -------

  lemma {:induction false} CostIsDefined(m0: Mem, m: Mem, root: Addr, stack: seq<Addr>, parent: Option<Addr>, b: Addr, done: set<Addr>)
    requires Markable(m0) && InProgress(m0, m, root, stack, parent, b, done)
    ensures CostDefined(m0, m, stack) && Path(m0, stack + [b]) && b in m0
    ensures b !in stack
  {
    hide Acyclic;
    if stack != [] {
      PrefixIsPath(m0, stack, b, root);
    }
    BNotOnStack(m0, stack, b);
    assert (stack + [b])[|stack|] == b;
    forall k | 0 <= k < |stack|
      ensures stack[k] in m && m[stack[k]].rc % 256 <= |m0[stack[k]].fields|
    {
      assert OnStack(m0, m, stack, b, done, k);
    }
  }

  /** The marker's state at each of its labels. */
  ghost predicate At(m0: Mem, m: Mem, root: Addr, stack: seq<Addr>, parent: Option<Addr>, b: Addr, done: set<Addr>, i: nat, at: Label) {
    && Markable(m0)
    && InProgress(m0, m, root, stack, parent, b, done)
    && CostDefined(m0, m, stack) && Path(m0, stack + [b])
    && b in m0 && b in m && |m[b].fields| == |m0[b].fields| && m0[b].fields != []
    && (!at.Recurse? ==> i <= |m0[b].fields|)
    && (at.Recurse? ==> m[b] == m0[b] && m0[b].rc >= 0)
    && (at.MarkFields? ==> Scanning(m0, m, stack, b, done, i))
    && (at.MoveUp? ==> Finished(m0, m, stack, b, done))
    && (at.Done? ==> Finished(m0, m, stack, b, done) && parent == None)
  }

  /** What is left at each label. */
  ghost function Left(m0: Mem, m: Mem, stack: seq<Addr>, b: Addr, i: nat, at: Label): nat {
    if !(CostDefined(m0, m, stack) && Path(m0, stack + [b]) && b in m0 && (!at.Recurse? ==> i <= |m0[b].fields|)) then 0
    else
      assert (stack + [b])[|stack|] == b;
      match at
      case Recurse => StackCost(m0, m, stack) + 1 + RestCost(m0, stack + [b], 0)
      case MarkFields => StackCost(m0, m, stack) + RestCost(m0, stack + [b], i)
      case _ => StackCost(m0, m, stack)
  }

  lemma {:induction false} Start(m0: Mem, b0: Addr)
    requires Markable(m0) && Unshared(m0, b0) && m0[b0].fields != []
    ensures At(m0, m0, b0, [], None, b0, {}, 0, Recurse)
  {
    assert [] + [b0] == [b0];
  }

  lemma {:induction false} PrepareStep(m0: Mem, m: Mem, root: Addr, stack: seq<Addr>, parent: Option<Addr>, b: Addr, done: set<Addr>, i: nat)
    requires At(m0, m, root, stack, parent, b, done, i, Recurse)
    ensures var m' := m[b := m[b].(rc := Prepared(m[b].rc))];
      && At(m0, m', root, stack, parent, b, done, 0, MarkFields)
      && Left(m0, m', stack, b, 0, MarkFields) < Left(m0, m, stack, b, i, Recurse)
  {
    hide Acyclic, MarkPath, Path, StackCost, RestCost, FieldsCovered, Reversed;
    var m' := m[b := m[b].(rc := Prepared(m[b].rc))];
    CostIsDefined(m0, m, root, stack, parent, b, done);
    StackCostFrame(m0, m, m', stack);
    assert InProgress(m0, m', root, stack, parent, b, done) by {
      forall k | 0 <= k < |stack|
        ensures OnStack(m0, m', stack, b, done, k)
      {
        assert OnStack(m0, m, stack, b, done, k);
        StillReversed(m0, m, m', stack[k], Above(stack, k), Below(stack, b, k));
      }
      forall a | a in m0 && a !in stack && a != b
        ensures OffPath(m0, m', stack, b, done, a)
      {
        assert OffPath(m0, m, stack, b, done, a);
      }
    }
    NothingCovered(m0, stack, b, done);
  }

  lemma NothingCovered(m0: Mem, stack: seq<Addr>, b: Addr, done: set<Addr>)
    requires b in m0
    ensures FieldsCovered(m0, stack, b, done, b, 0)
  {
  }

  lemma {:induction false} FieldStep(m0: Mem, m: Mem, root: Addr, stack: seq<Addr>, parent: Option<Addr>, b: Addr, done: set<Addr>, i: nat)
    requires At(m0, m, root, stack, parent, b, done, i, MarkFields) && i < |m0[b].fields|
    ensures b in m && m[b].fields == m0[b].fields
    ensures m0[b].fields[i].Ptr? ==> m0[b].fields[i].a in m && m0[b].fields[i].a in m0
    ensures !m0[b].fields[i].Ptr? || m[m0[b].fields[i].a].rc < 0 ==> At(m0, m, root, stack, parent, b, done, i + 1, MarkFields)
    ensures Left(m0, m, stack, b, i + 1, MarkFields) < Left(m0, m, stack, b, i, MarkFields)
  {
    hide Acyclic, MarkPath, Path, StackCost, FieldsCovered, Reversed, OnStack, OffPath;
    assert (stack + [b])[|stack|] == b;
    var v := m0[b].fields[i];
    if v.Ptr? {
      ChildOffPath(m0, m, root, stack, parent, b, done, v.a);
    }
    if !v.Ptr? || m[v.a].rc < 0 {
      NextField(m0, m, stack, b, done, done, i);
    }
  }

  lemma {:induction false} LeafStep(m0: Mem, m: Mem, root: Addr, stack: seq<Addr>, parent: Option<Addr>, b: Addr, done: set<Addr>, i: nat, c: Addr)
    requires At(m0, m, root, stack, parent, b, done, i, MarkFields) && i < |m0[b].fields|
    requires m0[b].fields[i] == Ptr(c) && c in m && m[c].rc >= 0 && m[c].fields == []
    ensures var m' := m[c := m[c].(rc := Shared(m[c].rc))];
      && At(m0, m', root, stack, parent, b, done + {c}, i + 1, MarkFields)
      && Left(m0, m', stack, b, i + 1, MarkFields) < Left(m0, m, stack, b, i, MarkFields)
  {
    hide Acyclic, MarkPath, Path, StackCost, RestCost, FieldsCovered, Reversed, OnStack, OffPath;
    var m' := m[c := m[c].(rc := Shared(m[c].rc))];
    FieldStep(m0, m, root, stack, parent, b, done, i);
    ChildOffPath(m0, m, root, stack, parent, b, done, c);
    ToMarkChild(m0, root, stack, b, c);
    NothingCovered(m0, stack, c, done);
    LeafCovered(m0, stack, b, done, c);
    MarkOne(m0, m, root, stack, parent, b, done, c);
    StackCostFrame(m0, m, m', stack);
    NextField(m0, m, stack, b, done, done + {c}, i);
  }

  lemma LeafCovered(m0: Mem, stack: seq<Addr>, b: Addr, done: set<Addr>, c: Addr)
    requires c in m0 && m0[c].fields == []
    ensures FieldsCovered(m0, stack, b, done, c, |m0[c].fields|)
  {
  }

  lemma {:induction false} StackCostPush(m0: Mem, m: Mem, stack: seq<Addr>, b: Addr)
    requires CostDefined(m0, m, stack + [b]) && CostDefined(m0, m, stack)
    ensures b in m && b in m0 && m[b].rc % 256 <= |m0[b].fields| && Path(m0, stack + [b])
    ensures StackCost(m0, m, stack + [b]) == StackCost(m0, m, stack) + 1 + RestCost(m0, stack + [b], m[b].rc % 256)
  {
    hide RestCost, Markable;
    var p := stack + [b];
    assert p[|stack|] == b && p[..|stack|] == stack;
  }

  lemma {:induction false} DownStep(m0: Mem, m: Mem, root: Addr, stack: seq<Addr>, parent: Option<Addr>, b: Addr, done: set<Addr>, i: nat, c: Addr)
    requires At(m0, m, root, stack, parent, b, done, i, MarkFields) && i < |m0[b].fields|
    requires m0[b].fields[i] == Ptr(c) && c in m && m[c].rc >= 0 && m[c].fields != []
    ensures At(m0, Down(m, b, i, parent), root, stack + [b], Some(b), c, done, i + 1, Recurse)
    ensures Left(m0, Down(m, b, i, parent), stack + [b], c, i + 1, Recurse) < Left(m0, m, stack, b, i, MarkFields)
  {
    hide Acyclic, MarkPath, Path, StackCost, RestCost, FieldsCovered, Reversed, OnStack, OffPath;
    var m' := Down(m, b, i, parent);
    CostIsDefined(m0, m, root, stack, parent, b, done);
    GoDown(m0, m, root, stack, parent, b, done, i, c);
    ChildOffPath(m0, m, root, stack, parent, b, done, c);
    CostIsDefined(m0, m', root, stack + [b], Some(b), c, done);
    DownReverses(m0, m, stack, parent, b, done, i, c);
    StackCostFrame(m0, m, m', stack);
    StackCostPush(m0, m', stack, b);
    var p := stack + [b];
    assert p[|stack|] == b;
    DownCost(m0, p, i, c);
  }

  lemma {:induction false} DownCost(m0: Mem, p: seq<Addr>, i: nat, c: Addr)
    requires Markable(m0) && Path(m0, p) && Path(m0, p + [c]) && i < |m0[p[|p| - 1]].fields| && m0[p[|p| - 1]].fields[i] == Ptr(c)
    ensures RestCost(m0, p, i) == 3 + RestCost(m0, p + [c], 0) + RestCost(m0, p, i + 1)
  {
    assert FieldCost(m0, p, i) == 3 + RestCost(m0, p + [c], 0);
  }

  lemma {:induction false} FinishStep(m0: Mem, m: Mem, root: Addr, stack: seq<Addr>, parent: Option<Addr>, b: Addr, done: set<Addr>, i: nat)
    requires At(m0, m, root, stack, parent, b, done, i, MarkFields) && i == |m0[b].fields|
    ensures 0 <= Restored(m[b].rc)
    ensures var m' := m[b := m[b].(rc := Shared(Restored(m[b].rc)))];
      && At(m0, m', root, stack, parent, b, done + {b}, i, MoveUp)
      && Left(m0, m', stack, b, i, MoveUp) == Left(m0, m, stack, b, i, MarkFields)
  {
    hide Acyclic, MarkPath, Path, StackCost, FieldsCovered, Reversed, OnStack, OffPath;
    var m' := m[b := m[b].(rc := Shared(Restored(m[b].rc)))];
    Finish(m0, m, root, stack, parent, b, done);
    CostIsDefined(m0, m, root, stack, parent, b, done);
    StackCostFrame(m0, m, m', stack);
    assert (stack + [b])[|stack|] == b;
  }

  lemma {:induction false} UpStep(m0: Mem, m: Mem, root: Addr, stack: seq<Addr>, b: Addr, done: set<Addr>, i: nat, a: Addr)
    requires At(m0, m, root, stack, Some(a), b, done, i, MoveUp)
    ensures stack != [] && a in m && a in m0
    ensures var j := m[a].rc % 256;
      && 0 < j <= |m[a].fields|
      && m[a].fields[j - 1] == Link(Above(stack, |stack| - 1))
      && At(m0, Up(m, a, j, b), root, stack[..|stack| - 1], Above(stack, |stack| - 1), a, done, j, MarkFields)
      && Left(m0, Up(m, a, j, b), stack[..|stack| - 1], a, j, MarkFields) < Left(m0, m, stack, b, i, MoveUp)
  {
    hide Acyclic, MarkPath, Path, StackCost, FieldsCovered, Reversed, OnStack, OffPath;
    GoUp(m0, m, root, stack, b, done, a);
    var j := m[a].rc % 256;
    var m', rest := Up(m, a, j, b), stack[..|stack| - 1];
    assert stack == rest + [a];
    CostIsDefined(m0, m', root, rest, Above(stack, |stack| - 1), a, done);
    StackCostFrame(m0, m', m, rest);
    StackCostPush(m0, m, rest, a);
  }

  lemma NothingLeft(m0: Mem, m: Mem, stack: seq<Addr>, b: Addr, i: nat)
    ensures Left(m0, m, stack, b, i, Done) == Left(m0, m, stack, b, i, MoveUp)
  {
  }

  // ------- the marker -------

  class MarkHeap {
    var mem: Mem

    /** Whether field `i` of `b` leads to a block to go down into; an unshared leaf is marked right here. */
    method FieldShouldMark(b: Addr, i: nat) returns (child: Option<Addr>)
      requires b in mem && i < |mem[b].fields| && (mem[b].fields[i].Ptr? ==> mem[b].fields[i].a in mem)
      modifies this
      ensures var v, m := old(mem)[b].fields[i], old(mem);
        if v.Ptr? && m[v.a].rc >= 0 then
          if m[v.a].fields == [] then child == None && mem == m[v.a := m[v.a].(rc := Shared(m[v.a].rc))]
          else child == Some(v.a) && mem == m
        else child == None && mem == m
    {
      var v := mem[b].fields[i];
      child := None;
      if v.Ptr? {
        if mem[v.a].rc >= 0 {
          if |mem[v.a].fields| == 0 {
            MakeShared(v.a);
          } else {
            child := Some(v.a);
          }
        }
      }
    }

    method MakeShared(a: Addr)
      requires a in mem && 0 <= mem[a].rc
      modifies this
      ensures mem == old(mem)[a := old(mem)[a].(rc := Shared(old(mem)[a].rc))]
    {
      var rc := -mem[a].rc;
      if rc <= RC_STICKY_DROP {
        rc := RC_STICKY;
      }
      mem := mem[a := mem[a].(rc := rc)];
    }

    /** Mark `b0` and everything reachable from it through unshared blocks. */
    method MarkSharedRecx(b0: Addr)
      requires Markable(mem) && b0 in mem
      modifies this
      ensures mem.Keys == old(mem).Keys
      ensures !Unshared(old(mem), b0) || old(mem)[b0].fields == [] ==> mem == old(mem)
      ensures Unshared(old(mem), b0) && old(mem)[b0].fields != [] ==>
        forall a | a in old(mem) :: mem[a] == if ToMark(old(mem), b0, a) then Marked(old(mem)[a]) else old(mem)[a]
    {
      hide InProgress, Acyclic, Scanning, Finished, Path, CostDefined, StackCost, RestCost, Left, ToMark;
      ghost var m0 := mem;
      if mem[b0].rc < 0 {
        return;
      }
      if |mem[b0].fields| == 0 {
        return;
      }
      var b: Addr := b0;
      var parent: Option<Addr> := None;
      var i: nat := 0;
      ghost var stack: seq<Addr> := [];
      ghost var done: set<Addr> := {};
      var at := Recurse;
      Start(m0, b0);
      while at != Done
        invariant At(m0, mem, b0, stack, parent, b, done, i, at)
        decreases Left(m0, mem, stack, b, i, at), if at.MarkFields? then 2 else if at.MoveUp? then 1 else 0
      {
        match at {
          case Recurse =>
            PrepareStep(m0, mem, b0, stack, parent, b, done, i);
            i := 0;
            mem := mem[b := mem[b].(rc := Prepared(mem[b].rc))];
            at := MarkFields;

          case MarkFields =>
            if i < |mem[b].fields| {
              ghost var m := mem;
              FieldStep(m0, m, b0, stack, parent, b, done, i);
              var child := FieldShouldMark(b, i);
              i := i + 1;
              if child.Some? {
                DownStep(m0, m, b0, stack, parent, b, done, i - 1, child.value);
                mem := mem[b := mem[b].(fields := mem[b].fields[i - 1 := Link(parent)])];
                mem := mem[b := mem[b].(rc := WithIndex(mem[b].rc, i))];
                assert mem == Down(m, b, i - 1, parent);
                stack := stack + [b];
                parent := Some(b);
                b := child.value;
                at := Recurse;
              } else {
                ghost var v := m[b].fields[i - 1];
                if v.Ptr? && m[v.a].rc >= 0 {
                  LeafStep(m0, m, b0, stack, parent, b, done, i - 1, v.a);
                  done := done + {v.a};
                }
              }
            } else {
              FinishStep(m0, mem, b0, stack, parent, b, done, i);
              ghost var m := mem;
              mem := mem[b := mem[b].(rc := Restored(mem[b].rc))];
              MakeShared(b);
              assert mem == m[b := m[b].(rc := Shared(Restored(m[b].rc)))];
              done := done + {b};
              at := MoveUp;
            }

          case MoveUp =>
            if parent.Some? {
              var a := parent.value;
              UpStep(m0, mem, b0, stack, b, done, i, a);
              i := mem[a].rc % 256;
              var up := mem[a].fields[i - 1];
              mem := mem[a := mem[a].(fields := mem[a].fields[i - 1 := Ptr(b)])];
              b := a;
              parent := if up.Ptr? then Some(up.a) else None;
              stack := stack[..|stack| - 1];
              at := MarkFields;
            } else {
              NothingLeft(m0, mem, stack, b, i);
              at := Done;
            }
        }
      }
      AllMarked(m0, mem, b0, stack, b, done);
    }
  }
}
