/** What the representation invariant of the name index means, read off the memory alone,
    and the behaviour of whole runs of index operations. */
module IndexLaws {
  import opened BPlusTrees
  import opened NodeArena
  import opened NameIndexing

  // ----- the chain of leaves -----

  /** The node reached by following `next` `n` times. */
  ghost function NextTimes(m: Mem, p: Ptr, n: nat): Ptr
    decreases n
  {
    if n == 0 || p !in m then p else NextTimes(m, m[p].next, n - 1)
  }

  /** The entries stored in the leaves `ls`, one leaf after the other. */
  ghost function Stored(m: Mem, ls: seq<Ptr>): seq<Entry> {
    if ls == [] || ls[0] !in m then []
    else seq(m[ls[0]].dataNum, i requires 0 <= i < m[ls[0]].dataNum => Slot(m[ls[0]], i)) + Stored(m, ls[1..])
  }

  lemma {:induction false} ChainSteps(m: Mem, ls: seq<Ptr>, n: nat)
    requires Chain(m, ls) && n < |ls|
    ensures NextTimes(m, ls[0], n) == ls[n] && NextTimes(m, ls[0], |ls|) == 0
    decreases |ls|
  {
    if |ls| == 1 {
      assert m[ls[0]].next == Following(ls, 0) == 0;
      assert NextTimes(m, ls[0], 1) == NextTimes(m, 0, 0);
    } else {
      var rest := ls[1..];
      assert m[ls[0]].next == Following(ls, 0) == rest[0];
      forall i | 0 <= i < |rest|
        ensures rest[i] in m && m[rest[i]].next == Following(rest, i)
      {
        assert rest[i] == ls[i + 1] && Following(ls, i + 1) == Following(rest, i);
      }
      ChainSteps(m, rest, if n == 0 then 0 else n - 1);
    }
  }

  lemma StoredConcat(m: Mem, a: seq<Ptr>, b: seq<Ptr>)
    requires forall p | p in a :: p in m
    ensures Stored(m, a + b) == Stored(m, a) + Stored(m, b)
  {
    if a == [] {
      assert a + b == b;
    } else {
      assert (a + b)[1..] == a[1..] + b;
      StoredConcat(m, a[1..], b);
    }
  }

  lemma {:induction false} StoredTree(m: Mem, t: Tree)
    requires Rep(m, t)
    ensures Stored(m, Leaves(t)) == Entries(t) && forall p | p in Leaves(t) :: p in m
    decreases t, 0
  {
    match t
    case Leaf(id, es) =>
      assert [id][1..] == [];
      assert Stored(m, []) == [];
    case Inner(_, kids) => StoredForest(m, kids);
  }

  lemma {:induction false} StoredForest(m: Mem, ts: seq<Tree>)
    requires Reps(m, ts)
    ensures Stored(m, LeavesF(ts)) == EntriesF(ts) && forall p | p in LeavesF(ts) :: p in m
    decreases ts, 1
  {
    if ts != [] {
      StoredTree(m, ts[0]);
      StoredForest(m, ts[1..]);
      StoredConcat(m, Leaves(ts[0]), LeavesF(ts[1..]));
    }
  }

  lemma {:induction false} LeavesOnce(t: Tree)
    ensures multiset(Leaves(t)) <= Ids(t)
    decreases t, 0
  {
    if t.Inner? {
      LeavesOnceF(t.kids);
    }
  }

  lemma {:induction false} LeavesOnceF(ts: seq<Tree>)
    ensures multiset(LeavesF(ts)) <= IdsF(ts)
    decreases ts, 1
  {
    if ts != [] {
      LeavesOnce(ts[0]);
      LeavesOnceF(ts[1..]);
      assert multiset(LeavesF(ts)) == multiset(Leaves(ts[0])) + multiset(LeavesF(ts[1..]));
    }
  }

  /** The cell reached by first children. */
  ghost function Leftmost(m: Mem, p: Ptr, n: nat): Ptr
    decreases n
  {
    if p !in m || m[p].leaf || n == 0 then p else Leftmost(m, m[p].child[0], n - 1)
  }

  lemma {:induction false} LeavesStart(m: Mem, t: Tree, h: nat)
    requires Rep(m, t) && RootShaped(t, h)
    ensures Leaves(t) != [] && Leaves(t)[0] == Leftmost(m, t.id, h)
    decreases t
  {
    if t.Inner? {
      assert m[t.id].child[0] == t.kids[0].id && Rep(m, t.kids[0]) && Shaped(t.kids[0], h - 1);
      LeavesStart(m, t.kids[0], h - 1);
    }
  }

  lemma {:induction false} LeafCells(m: Mem, t: Tree)
    requires Rep(m, t)
    ensures forall p | p in Ids(t) && p in m && m[p].leaf :: p in Leaves(t)
    ensures forall p | p in Leaves(t) :: p in m && m[p].leaf
    decreases t, 0
  {
    if t.Inner? {
      LeafCellsF(m, t.kids);
    }
  }

  lemma {:induction false} LeafCellsF(m: Mem, ts: seq<Tree>)
    requires Reps(m, ts)
    ensures forall p | p in IdsF(ts) && p in m && m[p].leaf :: p in LeavesF(ts)
    ensures forall p | p in LeavesF(ts) :: p in m && m[p].leaf
    decreases ts, 1
  {
    if ts != [] {
      LeafCells(m, ts[0]);
      LeafCellsF(m, ts[1..]);
    }
  }

  /** The chain law: the cell reached by first children is a leaf; from there `next` visits every
      live leaf cell once, in tree order, ends in NULL, and meets all entries in ascending order. */
  lemma ChainLaw(m: Mem, t: Tree, h: nat)
    requires Built(m, t) && RootShaped(t, h) && Ascending(Entries(t))
    ensures Leaves(t) != [] && Leaves(t)[0] == Leftmost(m, t.id, h)
    ensures forall p | p in m :: m[p].leaf <==> p in Leaves(t)
    ensures forall n | 0 <= n < |Leaves(t)| :: NextTimes(m, Leaves(t)[0], n) == Leaves(t)[n]
    ensures NextTimes(m, Leaves(t)[0], |Leaves(t)|) == 0
    ensures forall p | p in Leaves(t) :: multiset(Leaves(t))[p] == 1 && p in m
    ensures Stored(m, Leaves(t)) == Entries(t) && Ascending(Stored(m, Leaves(t)))
  {
    LeavesStart(m, t, h);
    LeafCells(m, t);
    assert forall p | p in m :: p in Ids(t) by {
      assert forall p | p in m :: p in multiset(m.Keys);
    }
    forall n | 0 <= n < |Leaves(t)|
      ensures NextTimes(m, Leaves(t)[0], n) == Leaves(t)[n]
    {
      ChainSteps(m, Leaves(t), n);
    }
    ChainSteps(m, Leaves(t), 0);
    StoredTree(m, t);
    LeavesOnce(t);
    OwnsDistinct(m, Ids(t));
    forall p | p in Leaves(t)
      ensures multiset(Leaves(t))[p] == 1
    {
      assert p in multiset(Leaves(t)) && Ids(t)[p] == 1;
    }
  }

  // ----- live cells are the reachable cells -----

  /** Where a path of child positions leads; 0 if it leaves the tree. */
  ghost function Follow(m: Mem, p: Ptr, path: seq<nat>): Ptr
    decreases |path|
  {
    if path == [] then p
    else if p in m && !m[p].leaf && path[0] <= m[p].dataNum then Follow(m, m[p].child[path[0]], path[1..])
    else 0
  }

  ghost predicate Reachable(m: Mem, root: Ptr, p: Ptr) {
    p != 0 && exists path :: Follow(m, root, path) == p
  }

  /** The child below which the node `p` is found. */
  lemma ChildTowards(m: Mem, t: Tree, p: Ptr) returns (i: nat)
    requires Rep(m, t) && p in Ids(t) && p != t.id
    ensures t.Inner? && i < |t.kids| && p in Ids(t.kids[i]) && Rep(m, t.kids[i])
    ensures t.id in m && !m[t.id].leaf && i <= m[t.id].dataNum && m[t.id].child[i] == t.kids[i].id
  {
    IdsWhere(t.kids, p);
    i :| 0 <= i < |t.kids| && p in Ids(t.kids[i]);
  }

  lemma {:induction false} PathTo(m: Mem, t: Tree, p: Ptr) returns (path: seq<nat>)
    requires Rep(m, t) && p in Ids(t)
    ensures Follow(m, t.id, path) == p
    decreases t
  {
    hide Ids, Rep;
    if p == t.id {
      path := [];
    } else {
      var i := ChildTowards(m, t, p);
      var rest := PathTo(m, t.kids[i], p);
      path := [i] + rest;
      assert path[1..] == rest;
    }
  }

  lemma {:induction false} FollowStays(m: Mem, t: Tree, h: nat, path: seq<nat>)
    requires Rep(m, t) && RootShaped(t, h)
    ensures var p := Follow(m, t.id, path);
      p == 0 || (p in Ids(t) && p in m && (m[p].leaf ==> |path| == h))
    decreases path
  {
    assert t.id in Ids(t);
    if path != [] && t.Inner? && path[0] <= m[t.id].dataNum {
      var i := path[0];
      assert m[t.id].child[i] == t.kids[i].id;
      assert Shaped(t.kids[i], h - 1);
      FollowStays(m, t.kids[i], h - 1, path[1..]);
      IdsAt(t.kids, i);
      OwnCells(m, t.kids[i]);
    }
  }

  lemma {:induction false} OwnCells(m: Mem, t: Tree)
    requires Rep(m, t)
    ensures forall p | p in Ids(t) :: p in m && p != 0
    decreases t
  {
    forall p | p in Ids(t)
      ensures p in m && p != 0
    {
      if p != t.id {
        IdsWhere(t.kids, p);
        var i :| 0 <= i < |t.kids| && p in Ids(t.kids[i]);
        OwnCells(m, t.kids[i]);
      }
    }
  }

  /** Conservation: a cell is live exactly if child links lead to it from the root, and all
      paths to leaves have the same length. */
  lemma LiveIsReachable(m: Mem, t: Tree, h: nat)
    requires Built(m, t) && RootShaped(t, h)
    ensures forall p: Ptr :: p in m <==> Reachable(m, t.id, p)
    ensures forall path {:trigger Follow(m, t.id, path)} ::
      Follow(m, t.id, path) in m && m[Follow(m, t.id, path)].leaf ==> |path| == h
  {
    OwnCells(m, t);
    forall p: Ptr
      ensures p in m <==> Reachable(m, t.id, p)
    {
      if p in m {
        assert p in multiset(m.Keys);
        var path := PathTo(m, t, p);
        assert Follow(m, t.id, path) == p;
      }
      if Reachable(m, t.id, p) {
        var path :| Follow(m, t.id, path) == p;
        FollowStays(m, t, h, path);
      }
    }
    forall path {:trigger Follow(m, t.id, path)} | Follow(m, t.id, path) in m && m[Follow(m, t.id, path)].leaf
      ensures |path| == h
    {
      FollowStays(m, t, h, path);
    }
  }

  // ----- every node on its own -----

  /** The key found by going left `n` times at most. */
  ghost function LeftKey(m: Mem, p: Ptr, n: nat): U64
    decreases n
  {
    if p !in m then 0
    else if n == 0 || m[p].leaf then m[p].fnv[0]
    else LeftKey(m, m[p].child[0], n - 1)
  }

  lemma {:induction false} LeftKeyIsMin(m: Mem, t: Tree, h: nat, n: nat)
    requires Rep(m, t) && Shaped(t, h) && h <= n
    ensures LeftKey(m, t.id, n) == Min(t)
    decreases t
  {
    if t.Inner? {
      assert m[t.id].child[0] == t.kids[0].id;
      LeftKeyIsMin(m, t.kids[0], h - 1, n - 1);
    } else {
      assert Slot(m[t.id], 0) == t.es[0];
    }
  }

  /** Fill limits, parent links and separators of one node. */
  ghost predicate NodeLaw(m: Mem, p: Ptr, root: Ptr, h: nat) {
    p in m &&
    (m[p].leaf ==> p == root || 2 <= m[p].dataNum <= 3) &&
    (!m[p].leaf ==> 1 <= m[p].dataNum <= 3) &&
    (!m[p].leaf ==> forall i | 0 <= i <= m[p].dataNum :: m[p].child[i] in m && m[m[p].child[i]].parent == p) &&
    (!m[p].leaf ==> forall i | 1 <= i <= m[p].dataNum :: m[p].fnv[i - 1] == LeftKey(m, m[p].child[i], h))
  }

  lemma NodeLawTop(m: Mem, t: Tree, root: Ptr, h: nat, n: nat)
    requires Rep(m, t) && RootShaped(t, h) && h <= n && (t.Leaf? ==> t.id == root || |t.es| >= 2)
    ensures NodeLaw(m, t.id, root, n)
  {
    if t.Inner? {
      forall i | 0 <= i <= m[t.id].dataNum
        ensures m[t.id].child[i] in m && m[m[t.id].child[i]].parent == t.id
        ensures i >= 1 ==> m[t.id].fnv[i - 1] == LeftKey(m, m[t.id].child[i], n)
      {
        assert m[t.id].child[i] == t.kids[i].id && Rep(m, t.kids[i]);
        if i >= 1 {
          var j := i - 1;
          assert m[t.id].fnv[j] == Min(t.kids[j + 1]);
          LeftKeyIsMin(m, t.kids[i], h - 1, n);
        }
      }
    }
  }

  lemma {:induction false} NodeLawBelow(m: Mem, t: Tree, root: Ptr, h: nat, n: nat, p: Ptr)
    requires Rep(m, t) && Shaped(t, h) && h <= n && p in Ids(t)
    ensures NodeLaw(m, p, root, n)
    decreases t
  {
    hide Ids, Rep, NodeLaw;
    if p == t.id {
      NodeLawTop(m, t, root, h, n);
    } else {
      var i := ChildTowards(m, t, p);
      NodeLawBelow(m, t.kids[i], root, h - 1, n, p);
    }
  }

  /** The shape law: every live node keeps its fill limits, parent links and exact separators. */
  lemma ShapeLaw(m: Mem, t: Tree, h: nat)
    requires Built(m, t) && RootShaped(t, h)
    ensures forall p | p in m :: NodeLaw(m, p, t.id, h)
  {
    forall p | p in m
      ensures NodeLaw(m, p, t.id, h)
    {
      assert p in multiset(m.Keys);
      if t.Leaf? {
        NodeLawTop(m, t, t.id, h, h);
      } else {
        NodeLawBelow(m, t, t.id, h, h, p);
      }
    }
  }

  // ----- runs -----

  type Bindings = map<U64, (U64, U16)>

  datatype Op = Put(name: string, value: U16) | Remove(name: string) | Get(name: string)
  datatype Answer = Status(ok: bool) | Value(v: Option<U16>)

  /** One operation on a plain map; `denied` says that there was no memory for an insertion. */
  ghost function MapAnswer(b: Bindings, op: Op, denied: bool, f: string -> U64, d: string -> U64): Answer {
    var bound := f(op.name) in b && b[f(op.name)].0 == d(op.name);
    match op
    case Put(name, _) => Status(f(name) !in b && !denied)
    case Remove(_) => Status(bound)
    case Get(name) => Value(if bound then Some(b[f(name)].1) else None)
  }

  ghost function MapStep(b: Bindings, op: Op, denied: bool, f: string -> U64, d: string -> U64): Bindings {
    match op
    case Put(name, value) => if f(name) in b || denied then b else b[f(name) := (d(name), value)]
    case Remove(name) => if f(name) in b && b[f(name)].0 == d(name) then b - {f(name)} else b
    case Get(_) => b
  }

  ghost function MapAfter(b: Bindings, ops: seq<Op>, denied: seq<bool>, f: string -> U64, d: string -> U64): Bindings
    requires |ops| == |denied|
  {
    if ops == [] then b
    else
      var n := |ops| - 1;
      MapStep(MapAfter(b, ops[..n], denied[..n], f, d), ops[n], denied[n], f, d)
  }

  /** The answer to `op` after `ops` is that of a plain map; only an insertion of a new key is denied. */
  ghost predicate AnswerOf(b: Bindings, ops: seq<Op>, denied: seq<bool>, op: Op, answer: Answer, no: bool,
      f: string -> U64, d: string -> U64)
    requires |ops| == |denied|
  {
    answer == MapAnswer(MapAfter(b, ops, denied, f, d), op, no, f, d) &&
    (no ==> op.Put? && f(op.name) !in MapAfter(b, ops, denied, f, d))
  }

  /** The answers are those of a plain map on which the denied insertions had no effect. */
  ghost predicate AnswersOf(b: Bindings, ops: seq<Op>, answers: seq<Answer>, denied: seq<bool>,
      f: string -> U64, d: string -> U64)
  {
    |ops| == |answers| == |denied| &&
    forall i | 0 <= i < |ops| :: AnswerOf(b, ops[..i], denied[..i], ops[i], answers[i], denied[i], f, d)
  }

  lemma AnswersNext(b: Bindings, ops: seq<Op>, answers: seq<Answer>, denied: seq<bool>,
      f: string -> U64, d: string -> U64, op: Op, answer: Answer, no: bool)
    requires AnswersOf(b, ops, answers, denied, f, d) && AnswerOf(b, ops, denied, op, answer, no, f, d)
    ensures AnswersOf(b, ops + [op], answers + [answer], denied + [no], f, d)
    ensures MapAfter(b, ops + [op], denied + [no], f, d) == MapStep(MapAfter(b, ops, denied, f, d), op, no, f, d)
  {
    var ops', answers', denied' := ops + [op], answers + [answer], denied + [no];
    assert MapAfter(b, ops', denied', f, d) == MapStep(MapAfter(b, ops, denied, f, d), op, no, f, d) by {
      assert ops'[..|ops|] == ops && denied'[..|ops|] == denied;
    }
    hide AnswerOf, MapAfter, MapStep;
    forall i | 0 <= i < |ops'|
      ensures AnswerOf(b, ops'[..i], denied'[..i], ops'[i], answers'[i], denied'[i], f, d)
    {
      if i < |ops| {
        assert ops'[..i] == ops[..i] && denied'[..i] == denied[..i];
      } else {
        assert ops'[..i] == ops && denied'[..i] == denied;
      }
    }
  }

  /** An insertion is denied only once there are more bindings than `budget`. */
  ghost predicate DeniedLate(b: Bindings, ops: seq<Op>, denied: seq<bool>, budget: nat,
      f: string -> U64, d: string -> U64)
  {
    |ops| == |denied| &&
    forall i | 0 <= i < |ops| && denied[i] :: budget < |MapAfter(b, ops[..i], denied[..i], f, d)|
  }

  lemma DeniedLateNext(b: Bindings, ops: seq<Op>, denied: seq<bool>, budget: nat, f: string -> U64, d: string -> U64,
      op: Op, no: bool)
    requires DeniedLate(b, ops, denied, budget, f, d) && (no ==> budget < |MapAfter(b, ops, denied, f, d)|)
    ensures DeniedLate(b, ops + [op], denied + [no], budget, f, d)
  {
    var ops', denied' := ops + [op], denied + [no];
    hide MapAfter;
    forall i | 0 <= i < |ops'| && denied'[i]
      ensures budget < |MapAfter(b, ops'[..i], denied'[..i], f, d)|
    {
      if i < |ops| {
        assert ops'[..i] == ops[..i] && denied'[..i] == denied[..i];
      } else {
        assert ops'[..i] == ops && denied'[..i] == denied;
      }
    }
  }

  /** Every operation adds at most one binding. */
  lemma {:induction false} AtMostOneEach(b: Bindings, ops: seq<Op>, denied: seq<bool>,
      f: string -> U64, d: string -> U64)
    requires |ops| == |denied|
    ensures |MapAfter(b, ops, denied, f, d)| <= |b| + |ops|
    decreases |ops|
  {
    if ops != [] {
      var n := |ops| - 1;
      AtMostOneEach(b, ops[..n], denied[..n], f, d);
      StepAddsOne(MapAfter(b, ops[..n], denied[..n], f, d), ops[n], denied[n], f, d);
    }
  }

  lemma StepAddsOne(b: Bindings, op: Op, denied: bool, f: string -> U64, d: string -> U64)
    ensures |MapStep(b, op, denied, f, d)| <= |b| + 1
  {
    var b' := MapStep(b, op, denied, f, d);
    assert b'.Keys <= b.Keys + {f(op.name)};
    FewerKeys(b'.Keys, b.Keys + {f(op.name)});
  }

  lemma {:induction false} FewerKeys<K(!new)>(a: set<K>, b: set<K>)
    requires a <= b
    ensures |a| <= |b|
    decreases |a|
  {
    if x :| x in a {
      FewerKeys(a - {x}, b - {x});
    }
  }

  /** With a budget for every insertion to come, none is denied. */
  lemma NoneDenied(b: Bindings, ops: seq<Op>, denied: seq<bool>, budget: nat, f: string -> U64, d: string -> U64)
    requires DeniedLate(b, ops, denied, budget, f, d) && |b| + |ops| <= budget
    ensures forall i | 0 <= i < |ops| :: !denied[i]
  {
    hide MapAfter;
    forall i | 0 <= i < |ops|
      ensures !denied[i]
    {
      AtMostOneEach(b, ops[..i], denied[..i], f, d);
    }
  }

  // ----- runs on the heap -----

  /** An index between two operations: its tree, the nodes in use, and those still to be had. */
  datatype Snapshot = Snapshot(tree: Tree, height: nat, nodes: nat, room: nat)

  ghost function Now(index: NameIndex): Snapshot
    reads index, index.heap
  {
    Snapshot(index.tree, index.height, |index.mem.Keys|, index.Room())
  }

  ghost function Bound(s: Snapshot): Bindings {
    AsMap(Entries(s.tree))
  }

  ghost predicate Sound(s: Snapshot) {
    RootShaped(s.tree, s.height) && Ascending(Entries(s.tree)) && |Ids(s.tree)| == s.nodes
  }

  /** An insertion that needs more nodes than there are. */
  ghost predicate Short(s: Snapshot, op: Op, f: string -> U64) {
    op.Put? && f(op.name) !in Bound(s) && s.room < NodesNeeded(s.tree, f(op.name))
  }

  /** What an operation does to an index: to the bindings what it does to a map, and to the nodes
      what the tree demands.  It is denied exactly when nodes are short. */
  ghost predicate StepOf(s: Snapshot, op: Op, answer: Answer, denied: bool, t: Snapshot,
      f: string -> U64, d: string -> U64)
  {
    Sound(s) && Sound(t) && (denied <==> Short(s, op, f)) &&
    answer == MapAnswer(Bound(s), op, denied, f, d) && Bound(t) == MapStep(Bound(s), op, denied, f, d) &&
    match op
    case Put(name, _) =>
      if f(name) in Bound(s) || denied then t == s
      else t.room == s.room - NodesNeeded(s.tree, f(name)) && t.nodes == s.nodes + NodesNeeded(s.tree, f(name))
    case Remove(_) =>
      t.nodes + t.room >= s.nodes + s.room && t.nodes <= s.nodes && (answer == Status(false) ==> t == s)
    case Get(_) => t == s
  }

  ghost predicate Traced(trace: seq<Snapshot>, ops: seq<Op>, answers: seq<Answer>, denied: seq<bool>,
      f: string -> U64, d: string -> U64)
  {
    |ops| == |answers| == |denied| && |trace| == |ops| + 1 &&
    forall i | 0 <= i < |ops| :: StepOf(trace[i], ops[i], answers[i], denied[i], trace[i + 1], f, d)
  }

  lemma TracedNext(trace: seq<Snapshot>, ops: seq<Op>, answers: seq<Answer>, denied: seq<bool>,
      f: string -> U64, d: string -> U64, op: Op, answer: Answer, no: bool, t: Snapshot)
    requires Traced(trace, ops, answers, denied, f, d) && StepOf(trace[|ops|], op, answer, no, t, f, d)
    ensures Traced(trace + [t], ops + [op], answers + [answer], denied + [no], f, d)
  {
    hide StepOf;
  }

  /** A short insertion finds more bindings than nodes in use and still to be had. */
  lemma ShortIsLate(s: Snapshot, op: Op, f: string -> U64)
    requires Sound(s) && Short(s, op, f)
    ensures s.nodes + s.room < |Bound(s)|
  {
    hide NodesNeeded, AsMap, Ids;
    EnoughNodes(s.tree, s.height, f(op.name));
    AsMapCount(Entries(s.tree));
  }

  /** No operation lowers the number of nodes in use and still to be had. */
  lemma StepBudget(s: Snapshot, op: Op, answer: Answer, denied: bool, t: Snapshot, f: string -> U64, d: string -> U64)
    requires StepOf(s, op, answer, denied, t, f, d)
    ensures t.nodes + t.room >= s.nodes + s.room && Sound(s)
    ensures denied ==> s.nodes + s.room < |Bound(s)|
    ensures answer == MapAnswer(Bound(s), op, denied, f, d) && Bound(t) == MapStep(Bound(s), op, denied, f, d)
    ensures denied ==> op.Put? && f(op.name) !in Bound(s)
  {
    hide NodesNeeded, Bound, RootShaped, Ascending;
    if denied {
      ShortIsLate(s, op, f);
    }
  }

  /** A traced run answers as a plain map, and denies only when there are more bindings than nodes
      at the start. */
  lemma {:induction false} TracedRun(trace: seq<Snapshot>, ops: seq<Op>, answers: seq<Answer>, denied: seq<bool>,
      f: string -> U64, d: string -> U64)
    requires Traced(trace, ops, answers, denied, f, d)
    ensures AnswersOf(Bound(trace[0]), ops, answers, denied, f, d)
    ensures Bound(trace[|ops|]) == MapAfter(Bound(trace[0]), ops, denied, f, d)
    ensures DeniedLate(Bound(trace[0]), ops, denied, trace[0].nodes + trace[0].room, f, d)
    ensures trace[|ops|].nodes + trace[|ops|].room >= trace[0].nodes + trace[0].room
    decreases |ops|
  {
    var b, budget := Bound(trace[0]), trace[0].nodes + trace[0].room;
    if ops == [] {
      assert answers == [] && denied == [];
      NoAnswers(b, budget, f, d);
    } else {
      var n := |ops| - 1;
      hide MapAfter, AnswersOf, DeniedLate, StepOf, Bound, MapAnswer, MapStep;
      TracedRun(trace[..n + 1], ops[..n], answers[..n], denied[..n], f, d);
      StepBudget(trace[n], ops[n], answers[n], denied[n], trace[n + 1], f, d);
      AnswersNext(b, ops[..n], answers[..n], denied[..n], f, d, ops[n], answers[n], denied[n]);
      DeniedLateNext(b, ops[..n], denied[..n], budget, f, d, ops[n], denied[n]);
      assert ops == ops[..n] + [ops[n]] && answers == answers[..n] + [answers[n]];
      assert denied == denied[..n] + [denied[n]];
    }
  }

  /** For every run of operations the index answers as a plain map would.  An insertion for which
      the heap has no node is denied and changes nothing; the run stops only at an insertion that
      got some of its nodes and then no more.  Neither happens before the index holds more bindings
      than there were nodes in use and to be had at the start. */
  method Run(index: NameIndex, ops: seq<Op>)
    returns (answers: seq<Answer>, denied: seq<bool>, stopped: bool, ghost trace: seq<Snapshot>)
    requires index.Valid() && index.root != 0
    modifies index, index.heap
    ensures index.heap.Valid() && index.Foreign() == old(index.Foreign()) && index.Budget() >= old(index.Budget())
    ensures |answers| == |denied| <= |ops| && (|answers| < |ops| <==> stopped)
    ensures Traced(trace, ops[..|answers|], answers, denied, index.fnv1a, index.djb2) && trace[0] == old(Now(index))
    ensures !stopped ==> index.Valid() && trace[|ops|] == Now(index)
    ensures stopped ==>
      Short(trace[|answers|], ops[|answers|], index.fnv1a) && trace[|answers|].room > 0 && index.Room() == 0
    ensures forall i | 0 <= i < |answers| ::
      var b := MapAfter(old(index.Contents()), ops[..i], denied[..i], index.fnv1a, index.djb2);
      answers[i] == MapAnswer(b, ops[i], denied[i], index.fnv1a, index.djb2) &&
      (denied[i] ==> ops[i].Put? && old(index.Budget()) < |b|)
    ensures !stopped ==> index.Contents() == MapAfter(old(index.Contents()), ops, denied, index.fnv1a, index.djb2)
    ensures |old(index.Contents())| + |ops| <= old(index.Budget()) ==>
      !stopped && forall i | 0 <= i < |ops| :: !denied[i]
  {
    hide Traced, StepOf, Short, Bound, Sound, AnswersOf, MapAfter, MapAnswer, DeniedLate;
    hide AsMap, Entries, Built, RootShaped;
    hide Ascending, KernelHeap.Room, KernelHeap.WellFormed, KernelHeap.Linked, KernelHeap.Live;
    answers, denied, stopped, trace := PerformAll(index, ops);
    ghost var n := |answers|;
    assert !stopped ==> ops[..n] == ops;
    BoundNow(old(index.tree), trace[0]);
    BoundNow(index.tree, trace[n]);
    RunLaws(old(index.Contents()), old(index.Budget()), trace, ops, n, answers, denied, index.fnv1a, index.djb2);
    RunMeans(old(index.Contents()), old(index.Budget()), ops, n, answers, denied, index.fnv1a, index.djb2);
  }

  lemma RunMeans(b: Bindings, budget: nat, ops: seq<Op>, k: nat, answers: seq<Answer>, denied: seq<bool>,
      f: string -> U64, d: string -> U64)
    requires k <= |ops| && AnswersOf(b, ops[..k], answers, denied, f, d)
    requires DeniedLate(b, ops[..k], denied, budget, f, d)
    ensures |answers| == |denied| == k
    ensures forall i | 0 <= i < k ::
      var now := MapAfter(b, ops[..i], denied[..i], f, d);
      answers[i] == MapAnswer(now, ops[i], denied[i], f, d) && (denied[i] ==> ops[i].Put? && budget < |now|)
  {
    hide MapAfter, MapAnswer;
    forall i | 0 <= i < k
      ensures var now := MapAfter(b, ops[..i], denied[..i], f, d);
        answers[i] == MapAnswer(now, ops[i], denied[i], f, d) && (denied[i] ==> ops[i].Put? && budget < |now|)
    {
      assert ops[..k][..i] == ops[..i];
      assert AnswerOf(b, ops[..k][..i], denied[..i], ops[..k][i], answers[i], denied[i], f, d);
    }
  }

  /** What the operations do to a plain map. */
  lemma PlainMap(b: Bindings, op: Op, denied: bool, f: string -> U64, d: string -> U64)
    ensures MapAfter(b, [], [], f, d) == b && MapAfter(b, [op], [denied], f, d) == MapStep(b, op, denied, f, d)
    ensures op.Put? && f(op.name) !in b && !denied ==>
      MapAnswer(b, op, denied, f, d) == Status(true) &&
      MapStep(b, op, denied, f, d) == b[f(op.name) := (d(op.name), op.value)]
    ensures op.Put? && (f(op.name) in b || denied) ==>
      MapAnswer(b, op, denied, f, d) == Status(false) && MapStep(b, op, denied, f, d) == b
    ensures op.Remove? && f(op.name) in b && b[f(op.name)].0 == d(op.name) ==>
      MapAnswer(b, op, denied, f, d) == Status(true) && MapStep(b, op, denied, f, d) == b - {f(op.name)}
    ensures op.Remove? && (f(op.name) in b ==> b[f(op.name)].0 != d(op.name)) ==>
      MapAnswer(b, op, denied, f, d) == Status(false) && MapStep(b, op, denied, f, d) == b
    ensures op.Get? ==> MapStep(b, op, denied, f, d) == b
    ensures op.Get? ==>
      MapAnswer(b, op, denied, f, d) ==
      Value(if f(op.name) in b && b[f(op.name)].0 == d(op.name) then Some(b[f(op.name)].1) else None)
  {
    assert [op][..0] == [] && [denied][..0] == [];
  }

  method PerformAll(index: NameIndex, ops: seq<Op>)
    returns (answers: seq<Answer>, denied: seq<bool>, stopped: bool, ghost trace: seq<Snapshot>)
    requires index.Valid() && index.root != 0
    modifies index, index.heap
    ensures index.heap.Valid() && index.Foreign() == old(index.Foreign()) && index.Budget() >= old(index.Budget())
    ensures |answers| == |denied| <= |ops| && (|answers| < |ops| <==> stopped) && |trace| == |answers| + 1
    ensures Traced(trace, ops[..|answers|], answers, denied, index.fnv1a, index.djb2) && trace[0] == old(Now(index))
    ensures !stopped ==> index.Valid() && trace[|ops|] == Now(index)
    ensures stopped ==> Sound(trace[|answers|])
    ensures stopped ==>
      Short(trace[|answers|], ops[|answers|], index.fnv1a) && trace[|answers|].room > 0 && index.Room() == 0
  {
    hide Traced, StepOf, Short, Sound, Built, RootShaped, Ascending, AsMap, Entries;
    assert index.heap.Valid();
    hide Now, KernelHeap.Room, KernelHeap.Heap.Valid;
    hide NameIndex.Valid, NameIndex.Foreign, NameIndex.Budget, NameIndex.Room;
    answers, denied, stopped, trace := [], [], false, [Now(index)];
    ghost var f, d, done: seq<Op> := index.fnv1a, index.djb2, [];
    NothingTraced(trace[0], f, d);
    NowIsSound(index);
    var i := 0;
    while i < |ops|
      invariant 0 <= i <= |ops| && done == ops[..i] && |trace| == i + 1 && trace[0] == old(Now(index))
      invariant |answers| == |denied| == i && Traced(trace, done, answers, denied, f, d)
      invariant index.Valid() && index.heap.Valid() && index.Foreign() == old(index.Foreign())
      invariant index.Budget() >= old(index.Budget()) && trace[i] == Now(index) && Sound(trace[i])
    {
      var answer, no, torn := Perform(index, ops[i]);
      if torn {
        stopped := true;
        return;
      }
      NowIsSound(index);
      TracedNext(trace, done, answers, denied, f, d, ops[i], answer, no, Now(index));
      TakeNext(ops, i);
      done, trace := done + [ops[i]], trace + [Now(index)];
      answers, denied := answers + [answer], denied + [no];
      i := i + 1;
    }
  }

  lemma TakeNext<T>(s: seq<T>, i: nat)
    requires i < |s|
    ensures s[..i + 1] == s[..i] + [s[i]]
  {
  }

  lemma BoundNow(t: Tree, s: Snapshot)
    ensures t == s.tree ==> Bound(s) == AsMap(Entries(t))
  {
  }

  lemma NowIsSound(index: NameIndex)
    requires index.Valid()
    ensures Sound(Now(index))
  {
    hide Rep, Chain, Ids;
    assert |multiset(index.mem.Keys)| == |index.mem.Keys|;
  }

  lemma NothingTraced(s: Snapshot, f: string -> U64, d: string -> U64)
    ensures Traced([s], [], [], [], f, d)
  {
  }

  /** What a traced run of `k` operations says, the next one being short of nodes if there is one. */
  lemma RunLaws(b: Bindings, budget: nat, trace: seq<Snapshot>, ops: seq<Op>, k: nat,
      answers: seq<Answer>, denied: seq<bool>, f: string -> U64, d: string -> U64)
    requires k <= |ops| && Traced(trace, ops[..k], answers, denied, f, d)
    requires k < |ops| ==> Sound(trace[k]) && Short(trace[k], ops[k], f)
    requires b == Bound(trace[0]) && budget == trace[0].nodes + trace[0].room
    ensures AnswersOf(b, ops[..k], answers, denied, f, d) && Bound(trace[k]) == MapAfter(b, ops[..k], denied, f, d)
    ensures DeniedLate(b, ops[..k], denied, budget, f, d)
    ensures |b| + |ops| <= budget ==> k == |ops| && forall i | 0 <= i < |ops| :: !denied[i]
  {
    TracedRun(trace, ops[..k], answers, denied, f, d);
    hide Bound, MapAfter, AnswersOf, StepOf, Short, Sound;
    AtMostOneEach(b, ops[..k], denied, f, d);
    if k < |ops| {
      ShortIsLate(trace[k], ops[k], f);
    }
    if |b| + |ops| <= budget {
      NoneDenied(b, ops[..k], denied, budget, f, d);
    }
  }

  lemma NoAnswers(b: Bindings, budget: nat, f: string -> U64, d: string -> U64)
    ensures AnswersOf(b, [], [], [], f, d) && MapAfter(b, [], [], f, d) == b && DeniedLate(b, [], [], budget, f, d)
  {
  }

  /** One operation of a run. */
  method Perform(index: NameIndex, op: Op) returns (answer: Answer, denied: bool, torn: bool)
    requires index.Valid() && index.root != 0
    modifies index, index.heap
    ensures index.heap.Valid() && index.Foreign() == old(index.Foreign()) && index.Budget() >= old(index.Budget())
    ensures !torn ==> index.Valid()
    ensures !torn ==> StepOf(old(Now(index)), op, answer, denied, Now(index), index.fnv1a, index.djb2)
    ensures torn ==> Short(old(Now(index)), op, index.fnv1a) && old(Now(index)).room > 0 && index.Room() == 0
  {
    hide StepOf, Short, KernelHeap.Room;
    denied, torn := false, false;
    match op
    case Put(_, _) => answer, denied, torn := PerformPut(index, op);
    case Remove(_) => answer := PerformRemove(index, op);
    case Get(_) => answer := PerformGet(index, op);
  }

  method PerformPut(index: NameIndex, op: Op) returns (answer: Answer, denied: bool, torn: bool)
    requires index.Valid() && index.root != 0 && op.Put?
    modifies index, index.heap
    ensures index.heap.Valid() && index.Foreign() == old(index.Foreign()) && index.Budget() == old(index.Budget())
    ensures !torn ==> index.Valid()
    ensures !torn ==> StepOf(old(Now(index)), op, answer, denied, Now(index), index.fnv1a, index.djb2)
    ensures torn ==> Short(old(Now(index)), op, index.fnv1a) && old(Now(index)).room > 0 && index.Room() == 0
  {
    hide StepOf, NodesNeeded, KernelHeap.Room, RootShaped, Sound, Built, AsMap, Entries, Ascending;
    hide KernelHeap.Linked, KernelHeap.WellFormed, KernelHeap.Live;
    NowIsSound(index);
    var ok := index.Insert(Some(op.name), op.value);
    answer, denied, torn := Status(ok), index.oom, index.torn;
    if !torn {
      NowIsSound(index);
      StepShown(old(Now(index)), op, answer, denied, Now(index), index.fnv1a, index.djb2);
    }
  }

  method PerformRemove(index: NameIndex, op: Op) returns (answer: Answer)
    requires index.Valid() && index.root != 0 && op.Remove?
    modifies index, index.heap
    ensures index.Valid() && index.Foreign() == old(index.Foreign()) && index.Budget() >= old(index.Budget())
    ensures StepOf(old(Now(index)), op, answer, false, Now(index), index.fnv1a, index.djb2)
  {
    hide StepOf, NodesNeeded, KernelHeap.Room, RootShaped, Sound, Built, AsMap, Entries, Ascending;
    hide KernelHeap.Linked, KernelHeap.WellFormed, KernelHeap.Live;
    NowIsSound(index);
    var ok := index.Delete(Some(op.name));
    answer := Status(ok);
    NowIsSound(index);
    FewerKeys(index.mem.Keys, old(index.mem.Keys));
    StepShown(old(Now(index)), op, answer, false, Now(index), index.fnv1a, index.djb2);
  }

  method PerformGet(index: NameIndex, op: Op) returns (answer: Answer)
    requires index.Valid() && index.root != 0 && op.Get?
    ensures StepOf(Now(index), op, answer, false, Now(index), index.fnv1a, index.djb2)
  {
    hide StepOf, NodesNeeded, KernelHeap.Room, RootShaped, Sound, Built, AsMap, Entries, Ascending;
    NowIsSound(index);
    var r := index.Search(Some(op.name));
    answer := Value(if r.Some? then Some(index.mem[r.value.0].data[r.value.1]) else None);
    StepShown(Now(index), op, answer, false, Now(index), index.fnv1a, index.djb2);
  }

  lemma StepShown(s: Snapshot, op: Op, answer: Answer, denied: bool, t: Snapshot, f: string -> U64, d: string -> U64)
    requires Sound(s) && Sound(t) && (denied <==> Short(s, op, f))
    requires answer == MapAnswer(Bound(s), op, denied, f, d) && Bound(t) == MapStep(Bound(s), op, denied, f, d)
    requires op.Get? || (op.Put? && (f(op.name) in Bound(s) || denied)) ==> t == s
    requires op.Put? && f(op.name) !in Bound(s) && !denied ==> t.room == s.room - NodesNeeded(s.tree, f(op.name))
    requires t.nodes + t.room >= s.nodes + s.room && (op.Put? ==> t.nodes + t.room == s.nodes + s.room)
    requires op.Remove? ==> t.nodes <= s.nodes && (answer == Status(false) ==> t == s)
    ensures StepOf(s, op, answer, denied, t, f, d)
  {
    hide Sound, Short, Bound, NodesNeeded, MapAnswer, MapStep;
  }
}
