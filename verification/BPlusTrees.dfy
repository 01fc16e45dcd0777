/** Abstract B+ trees: the values that the node arena of `NameIndex` represents.

    A tree carries the identity of every node, so that one tree describes both the
    entries of the index and the memory cells that hold them.  A context is a tree with
    one subtree missing; climbing along parent links is recursion over a context. */
module BPlusTrees {
  type U64 = x: int | 0 <= x < 0x1_0000_0000_0000_0000
  type U16 = x: int | 0 <= x < 0x1_0000

  /** The address of a node; 0 is NULL. */
  type Ptr = nat

  datatype Entry = Entry(fnv: U64, djb: U64, value: U16)

  datatype Tree = Leaf(id: Ptr, es: seq<Entry>) | Inner(id: Ptr, kids: seq<Tree>)

  datatype Ctx = Top | Frame(up: Ctx, id: Ptr, left: seq<Tree>, right: seq<Tree>)

  // ----- what a tree contains -----

  /** All entries, from the leftmost leaf to the rightmost. */
  ghost function Entries(t: Tree): seq<Entry>
    decreases t, 0
  {
    match t
    case Leaf(_, es) => es
    case Inner(_, kids) => EntriesF(kids)
  }

  ghost function EntriesF(ts: seq<Tree>): seq<Entry>
    decreases ts, 1
  {
    if ts == [] then [] else Entries(ts[0]) + EntriesF(ts[1..])
  }

  /** All leaves, from left to right. */
  ghost function Leaves(t: Tree): seq<Ptr>
    decreases t, 0
  {
    match t
    case Leaf(id, _) => [id]
    case Inner(_, kids) => LeavesF(kids)
  }

  ghost function LeavesF(ts: seq<Tree>): seq<Ptr>
    decreases ts, 1
  {
    if ts == [] then [] else Leaves(ts[0]) + LeavesF(ts[1..])
  }

  /** All nodes, with multiplicity. */
  ghost function Ids(t: Tree): multiset<Ptr>
    decreases t, 0
  {
    match t
    case Leaf(id, _) => multiset{id}
    case Inner(id, kids) => multiset{id} + IdsF(kids)
  }

  ghost function IdsF(ts: seq<Tree>): multiset<Ptr>
    decreases ts, 1
  {
    if ts == [] then multiset{} else Ids(ts[0]) + IdsF(ts[1..])
  }

  /** The key found by following first children down to a leaf. */
  ghost function Min(t: Tree): U64 {
    match t
    case Leaf(_, es) => if es == [] then 0 else es[0].fnv
    case Inner(_, kids) => if kids == [] then 0 else Min(kids[0])
  }

  ghost function Plug(c: Ctx, t: Tree): Tree
    decreases c
  {
    match c
    case Top => t
    case Frame(up, id, left, right) => Plug(up, Inner(id, left + [t] + right))
  }

  ghost function EntriesBefore(c: Ctx): seq<Entry> {
    match c
    case Top => []
    case Frame(up, _, left, _) => EntriesBefore(up) + EntriesF(left)
  }

  ghost function EntriesAfter(c: Ctx): seq<Entry> {
    match c
    case Top => []
    case Frame(up, _, _, right) => EntriesF(right) + EntriesAfter(up)
  }

  ghost function LeavesBefore(c: Ctx): seq<Ptr> {
    match c
    case Top => []
    case Frame(up, _, left, _) => LeavesBefore(up) + LeavesF(left)
  }

  ghost function LeavesAfter(c: Ctx): seq<Ptr> {
    match c
    case Top => []
    case Frame(up, _, _, right) => LeavesF(right) + LeavesAfter(up)
  }

  ghost function CtxIds(c: Ctx): multiset<Ptr> {
    match c
    case Top => multiset{}
    case Frame(up, id, left, right) => multiset{id} + IdsF(left) + IdsF(right) + CtxIds(up)
  }

  ghost function CtxDepth(c: Ctx): nat {
    match c
    case Top => 0
    case Frame(up, _, _, _) => 1 + CtxDepth(up)
  }

  // ----- shape -----

  /** A proper subtree of height `h`: all leaves equally deep, 2..3 entries in each
      leaf, 1..3 keys (2..4 children) in each inner node. */
  ghost predicate Shaped(t: Tree, h: nat)
    decreases t
  {
    match t
    case Leaf(_, es) => h == 0 && 2 <= |es| <= 3
    case Inner(_, kids) =>
      h > 0 && 2 <= |kids| <= 4 && forall i | 0 <= i < |kids| :: Shaped(kids[i], h - 1)
  }

  ghost predicate ShapedF(ts: seq<Tree>, h: nat) {
    forall i | 0 <= i < |ts| :: Shaped(ts[i], h)
  }

  /** The whole tree: a root leaf may hold fewer than two entries. */
  ghost predicate RootShaped(t: Tree, h: nat) {
    match t
    case Leaf(_, es) => h == 0 && |es| <= 3
    case Inner(_, _) => Shaped(t, h)
  }

  /** A context whose hole must be filled by a tree of height `h`. */
  ghost predicate CtxShaped(c: Ctx, h: nat)
    decreases c
  {
    match c
    case Top => true
    case Frame(up, _, left, right) =>
      1 <= |left| + |right| <= 3 && ShapedF(left, h) && ShapedF(right, h) && CtxShaped(up, h + 1)
  }

  // ----- order and the abstract map -----

  ghost predicate Ascending(es: seq<Entry>) {
    forall i, j | 0 <= i < j < |es| :: es[i].fnv < es[j].fnv
  }

  ghost predicate AllBelow(es: seq<Entry>, key: U64) {
    forall i | 0 <= i < |es| :: es[i].fnv < key
  }

  ghost predicate AllAbove(es: seq<Entry>, key: U64) {
    forall i | 0 <= i < |es| :: key < es[i].fnv
  }

  /** The map `fnv -> (djb, value)` that a list of entries stands for. */
  ghost function AsMap(es: seq<Entry>): map<U64, (U64, U16)> {
    if es == [] then map[]
    else AsMap(es[..|es| - 1])[es[|es| - 1].fnv := (es[|es| - 1].djb, es[|es| - 1].value)]
  }

  lemma {:induction false} AsMapDomain(es: seq<Entry>, key: U64)
    ensures key in AsMap(es) <==> exists i :: 0 <= i < |es| && es[i].fnv == key
  {
    if es != [] {
      var n := |es| - 1;
      AsMapDomain(es[..n], key);
      if key in AsMap(es[..n]) {
        var i :| 0 <= i < n && es[..n][i].fnv == key;
        assert es[i].fnv == key;
      }
      if i :| 0 <= i < |es| && es[i].fnv == key {
        if i < n {
          assert es[..n][i].fnv == key;
        }
      }
    }
  }

  lemma {:induction false} AsMapAt(es: seq<Entry>, i: nat)
    requires Ascending(es) && i < |es|
    ensures es[i].fnv in AsMap(es) && AsMap(es)[es[i].fnv] == (es[i].djb, es[i].value)
  {
    var n := |es| - 1;
    if i < n {
      AsMapAt(es[..n], i);
      assert es[..n][i] == es[i];
    }
  }

  ghost function InsertAt(es: seq<Entry>, i: nat, e: Entry): seq<Entry>
    requires i <= |es|
  {
    es[..i] + [e] + es[i..]
  }

  ghost function RemoveAt(es: seq<Entry>, i: nat): seq<Entry>
    requires i < |es|
  {
    es[..i] + es[i + 1..]
  }

  ghost predicate Absent(es: seq<Entry>, key: U64) {
    forall i | 0 <= i < |es| :: es[i].fnv != key
  }

  /** Inserting an entry with a new key adds exactly one binding, wherever it is put. */
  lemma {:induction false} AsMapInsert(es: seq<Entry>, i: nat, e: Entry)
    requires Absent(es, e.fnv) && i <= |es|
    ensures AsMap(InsertAt(es, i, e)) == AsMap(es)[e.fnv := (e.djb, e.value)]
  {
    var es' := InsertAt(es, i, e);
    var n := |es|;
    if i == n {
      assert es'[..n] == es && es'[n] == e;
    } else {
      var es0, z := es[..n - 1], es[n - 1];
      AsMapInsert(es0, i, e);
      assert es'[..n] == InsertAt(es0, i, e);
      assert es'[n] == z;
      assert z.fnv != e.fnv;
    }
  }

  lemma AroundAbsent(a: seq<Entry>, b: seq<Entry>, key: U64)
    requires AllBelow(a, key) && AllAbove(b, key)
    ensures Absent(a + b, key)
  {
  }

  lemma AscendingInsert(es: seq<Entry>, i: nat, e: Entry)
    requires Ascending(es) && i <= |es|
    requires AllBelow(es[..i], e.fnv) && AllAbove(es[i..], e.fnv)
    ensures Ascending(InsertAt(es, i, e))
  {
    assert forall j | 0 <= j < i :: es[..i][j] == es[j];
    assert forall j | i <= j < |es| :: es[j] == es[i..][j - i];
  }

  /** Removing an entry removes exactly its binding. */
  lemma {:induction false} AsMapRemove(es: seq<Entry>, i: nat)
    requires Ascending(es) && i < |es|
    ensures AsMap(RemoveAt(es, i)) == AsMap(es) - {es[i].fnv}
  {
    hide AsMap;
    var n := |es| - 1;
    var es0 := es[..n];
    AsMapLast(es);
    if i == n {
      assert RemoveAt(es, i) == es0;
      AsMapDomain(es0, es[n].fnv);
    } else {
      AsMapRemove(es0, i);
      assert es0[i] == es[i];
      AsMapLast(RemoveAt(es, i));
      assert RemoveAt(es, i)[..n - 1] == RemoveAt(es0, i);
      assert RemoveAt(es, i)[n - 1] == es[n];
    }
  }

  lemma {:induction false} AsMapCount(es: seq<Entry>)
    requires Ascending(es)
    ensures |AsMap(es)| == |es|
  {
    hide AsMap;
    if es == [] {
      AsMapNone();
    } else {
      var n := |es| - 1;
      AsMapLast(es);
      AsMapCount(es[..n]);
      AsMapDomain(es[..n], es[n].fnv);
      assert AsMap(es).Keys == AsMap(es[..n]).Keys + {es[n].fnv};
    }
  }

  lemma AsMapNone()
    ensures AsMap([]) == map[]
  {
  }

  lemma AsMapLast(es: seq<Entry>)
    requires es != []
    ensures var n := |es| - 1; AsMap(es) == AsMap(es[..n])[es[n].fnv := (es[n].djb, es[n].value)]
  {
  }

  // ----- forests -----

  lemma {:induction false} EntriesConcat(a: seq<Tree>, b: seq<Tree>)
    ensures EntriesF(a + b) == EntriesF(a) + EntriesF(b)
  {
    hide Entries;
    if a == [] {
      assert a + b == b;
    } else {
      EntriesConcat(a[1..], b);
      assert (a + b)[0] == a[0] && (a + b)[1..] == a[1..] + b;
      EntriesCons(a);
      EntriesCons(a + b);
      hide EntriesF;
    }
  }

  lemma EntriesCons(ts: seq<Tree>)
    requires ts != []
    ensures EntriesF(ts) == Entries(ts[0]) + EntriesF(ts[1..])
  {
  }

  lemma {:induction false} LeavesConcat(a: seq<Tree>, b: seq<Tree>)
    ensures LeavesF(a + b) == LeavesF(a) + LeavesF(b)
  {
    hide Leaves;
    if a == [] {
      assert a + b == b;
    } else {
      LeavesConcat(a[1..], b);
      assert (a + b)[0] == a[0] && (a + b)[1..] == a[1..] + b;
      LeavesCons(a);
      LeavesCons(a + b);
      hide LeavesF;
    }
  }

  lemma LeavesCons(ts: seq<Tree>)
    requires ts != []
    ensures LeavesF(ts) == Leaves(ts[0]) + LeavesF(ts[1..])
  {
  }

  lemma {:induction false} IdsConcat(a: seq<Tree>, b: seq<Tree>)
    ensures IdsF(a + b) == IdsF(a) + IdsF(b)
  {
    hide Ids;
    if a == [] {
      assert a + b == b;
    } else {
      IdsConcat(a[1..], b);
      assert (a + b)[0] == a[0] && (a + b)[1..] == a[1..] + b;
    }
  }

  lemma ForestConcat(a: seq<Tree>, b: seq<Tree>)
    ensures EntriesF(a + b) == EntriesF(a) + EntriesF(b)
    ensures LeavesF(a + b) == LeavesF(a) + LeavesF(b)
    ensures IdsF(a + b) == IdsF(a) + IdsF(b)
  {
    EntriesConcat(a, b);
    LeavesConcat(a, b);
    IdsConcat(a, b);
  }

  lemma ForestOne(t: Tree)
    ensures EntriesF([t]) == Entries(t) && LeavesF([t]) == Leaves(t) && IdsF([t]) == Ids(t)
  {
    assert [t][1..] == [];
  }

  /** Splitting a forest at one tree. */
  lemma ForestSplit(l: seq<Tree>, t: Tree, r: seq<Tree>)
    ensures EntriesF(l + [t] + r) == EntriesF(l) + Entries(t) + EntriesF(r)
    ensures LeavesF(l + [t] + r) == LeavesF(l) + Leaves(t) + LeavesF(r)
    ensures IdsF(l + [t] + r) == IdsF(l) + Ids(t) + IdsF(r)
  {
    ForestConcat(l + [t], r);
    ForestConcat(l, [t]);
    ForestOne(t);
  }

  /** Splitting a forest at two neighbouring trees. */
  lemma ForestSplit2(l: seq<Tree>, a: Tree, b: Tree, r: seq<Tree>)
    ensures EntriesF(l + [a, b] + r) == EntriesF(l) + (Entries(a) + Entries(b)) + EntriesF(r)
    ensures LeavesF(l + [a, b] + r) == LeavesF(l) + (Leaves(a) + Leaves(b)) + LeavesF(r)
    ensures IdsF(l + [a, b] + r) == IdsF(l) + (Ids(a) + Ids(b)) + IdsF(r)
  {
    ForestConcat(l + [a, b], r);
    ForestConcat(l, [a, b]);
    ForestTwo(a, b);
  }

  lemma ForestTwo(a: Tree, b: Tree)
    ensures EntriesF([a, b]) == Entries(a) + Entries(b)
    ensures LeavesF([a, b]) == Leaves(a) + Leaves(b)
    ensures IdsF([a, b]) == Ids(a) + Ids(b)
  {
    ForestConcat([a], [b]);
    assert [a, b] == [a] + [b];
    ForestOne(a);
    ForestOne(b);
  }

  lemma IdsAt(ts: seq<Tree>, i: nat)
    requires i < |ts|
    ensures Ids(ts[i]) <= IdsF(ts)
    ensures ts[i].id in IdsF(ts)
  {
    var l, t, r := ts[..i], ts[i], ts[i + 1..];
    assert IdsF(ts) == IdsF(l) + Ids(t) + IdsF(r) by {
      assert ts == l + [t] + r;
      ForestSplit(l, t, r);
    }
    assert t.id in Ids(t);
  }

  /** Every node of a forest lies in one of its trees. */
  lemma {:induction false} IdsWhere(ts: seq<Tree>, p: Ptr)
    requires p in IdsF(ts)
    ensures exists i :: 0 <= i < |ts| && p in Ids(ts[i])
  {
    if p in Ids(ts[0]) {
    } else {
      IdsWhere(ts[1..], p);
      var i :| 0 <= i < |ts[1..]| && p in Ids(ts[1..][i]);
      assert p in Ids(ts[i + 1]);
    }
  }

  // ----- contexts -----

  lemma Regroup<T>(a: seq<T>, l: seq<T>, m: seq<T>, r: seq<T>, b: seq<T>)
    ensures a + (l + m + r) + b == (a + l) + m + (r + b)
  {
  }

  lemma Associate<T>(a: seq<T>, l: seq<T>, x: seq<T>, y: seq<T>, b: seq<T>)
    ensures (a + (l + x)) + y + b == (a + l) + (x + y) + b
    ensures a + x + (y + b) == a + (x + y) + b
  {
  }

  lemma Gather<T>(a: multiset<T>, b: multiset<T>, c: multiset<T>)
    ensures a + (b + c) == a + b + c
  {
  }

  /** Filling a hole concatenates: what was before, the filling, what was after. */
  lemma {:induction false} PlugParts(c: Ctx, t: Tree)
    ensures Entries(Plug(c, t)) == EntriesBefore(c) + Entries(t) + EntriesAfter(c)
    ensures Leaves(Plug(c, t)) == LeavesBefore(c) + Leaves(t) + LeavesAfter(c)
    ensures Ids(Plug(c, t)) == CtxIds(c) + Ids(t)
    decreases c
  {
    match c
    case Top =>
    case Frame(up, id, left, right) =>
      var t' := Inner(id, left + [t] + right);
      PlugParts(up, t');
      assert Entries(t') == EntriesF(left) + Entries(t) + EntriesF(right)
        && Leaves(t') == LeavesF(left) + Leaves(t) + LeavesF(right)
        && Ids(t') == multiset{id} + (IdsF(left) + Ids(t) + IdsF(right)) by {
        ForestSplit(left, t, right);
      }
      Regroup(EntriesBefore(up), EntriesF(left), Entries(t), EntriesF(right), EntriesAfter(up));
      Regroup(LeavesBefore(up), LeavesF(left), Leaves(t), LeavesF(right), LeavesAfter(up));
  }

  lemma {:induction false} PlugShaped(c: Ctx, t: Tree, h: nat)
    requires CtxShaped(c, h)
    requires if c.Top? then RootShaped(t, h) else Shaped(t, h)
    ensures RootShaped(Plug(c, t), h + CtxDepth(c))
    decreases c
  {
    match c
    case Top =>
    case Frame(up, id, left, right) =>
      var kids := left + [t] + right;
      assert forall i | 0 <= i < |kids| :: Shaped(kids[i], h);
      PlugShaped(up, Inner(id, kids), h + 1);
  }

  // ----- how many entries a tree of a given height must hold -----

  ghost function Pow2(n: nat): nat {
    if n == 0 then 1 else 2 * Pow2(n - 1)
  }

  lemma {:induction false} ShapedCount(t: Tree, h: nat)
    requires Shaped(t, h)
    ensures |Entries(t)| >= Pow2(h + 1)
    decreases t
  {
    match t
    case Leaf(_, _) =>
      assert Pow2(1) == 2 * Pow2(0);
    case Inner(_, kids) =>
      ShapedCount(kids[0], h - 1);
      ShapedCount(kids[1], h - 1);
      ForestSplit2([], kids[0], kids[1], kids[2..]);
      assert kids == [] + [kids[0], kids[1]] + kids[2..];
  }

  /** A tree with `h` inner levels holds at least 2^h entries, unless it is one leaf. */
  lemma DepthIsLogarithmic(t: Tree, h: nat)
    requires RootShaped(t, h)
    ensures h > 0 ==> |Entries(t)| >= Pow2(h + 1)
    ensures Entries(t) != [] ==> |Entries(t)| >= Pow2(h)
  {
    if h > 0 {
      ShapedCount(t, h);
    }
  }

  // ----- how many nodes an insertion creates -----

  /** The child that a search for `key` follows. */
  ghost function Towards(kids: seq<Tree>, key: U64): (i: nat)
    ensures kids != [] ==> i < |kids|
  {
    if |kids| >= 2 && key >= Min(kids[1]) then 1 + Towards(kids[1..], key) else 0
  }

  /** The nodes created above a node that was split: a full parent is split as well, and the
      root keeps its cell. */
  ghost function Spill(c: Ctx): nat {
    match c
    case Top => 1
    case Frame(up, _, left, right) => if |left| + |right| < 3 then 0 else 1 + Spill(up)
  }

  /** The nodes created by inserting `key` below `t`, when splitting `t` leads to `above` more. */
  ghost function NewNodes(t: Tree, key: U64, above: nat): nat
    decreases t
  {
    match t
    case Leaf(_, es) => if |es| < 3 then 0 else 1 + above
    case Inner(_, kids) =>
      if kids == [] then 0
      else NewNodes(kids[Towards(kids, key)], key, if |kids| < 4 then 0 else 1 + above)
  }

  /** The nodes created by inserting the absent key `key` into the index `t`. */
  ghost function NodesNeeded(t: Tree, key: U64): nat {
    NewNodes(t, key, 1)
  }

  /** Trees below the root have fewer nodes than entries. */
  lemma {:induction false} FewNodes(t: Tree, h: nat)
    requires Shaped(t, h)
    ensures |Ids(t)| + 1 <= |Entries(t)|
    decreases t, 0
  {
    if t.Inner? {
      FewNodesF(t.kids, h - 1);
    }
  }

  lemma {:induction false} FewNodesF(ts: seq<Tree>, h: nat)
    requires ShapedF(ts, h)
    ensures |IdsF(ts)| + |ts| <= |EntriesF(ts)|
    decreases ts, 0
  {
    if ts != [] {
      FewNodes(ts[0], h);
      FewNodesF(ts[1..], h);
    }
  }

  lemma InnerCounts(t: Tree)
    requires t.Inner?
    ensures |Ids(t)| == 1 + |IdsF(t.kids)| && |Entries(t)| == |EntriesF(t.kids)|
  {
  }

  /** After an insertion, too, there are at most as many nodes as there were entries before. */
  lemma {:induction false} FewNodesAfter(t: Tree, h: nat, key: U64, above: nat)
    requires Shaped(t, h)
    ensures |Ids(t)| + NewNodes(t, key, above) <= |Entries(t)| + if above > 0 then above - 1 else 0
    decreases t
  {
    if t.Inner? {
      var i := Towards(t.kids, key);
      var l, k, r := t.kids[..i], t.kids[i], t.kids[i + 1..];
      assert t.kids == l + [k] + r;
      ForestSplit(l, k, r);
      FewNodesF(l, h - 1);
      FewNodesF(r, h - 1);
      hide Ids, IdsF, Entries, EntriesF;
      InnerCounts(t);
      FewNodesAfter(k, h - 1, key, if |t.kids| < 4 then 0 else 1 + above);
    }
  }

  /** A heap that has as many nodes as the index has entries, counting those in use, can always
      take one more entry. */
  lemma EnoughNodes(t: Tree, h: nat, key: U64)
    requires RootShaped(t, h)
    ensures NodesNeeded(t, key) == 0 || |Ids(t)| + NodesNeeded(t, key) <= |Entries(t)|
  {
    if t.Inner? {
      FewNodesAfter(t, h, key, 1);
    }
  }
}
