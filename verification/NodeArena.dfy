/** The memory of the B+ tree and when it represents an abstract tree.

    `Mem` maps the address of every live node to its fields, with the fixed-size arrays
    of the original.  All lemmas here relate one memory to another: what an update of a
    few cells leaves true of the rest of the tree. */
module NodeArena {
  import opened BPlusTrees

  /** The order of the tree: children per inner node. */
  const MAX_BPT_NODE_NUM := 4

  datatype NodeFields = NodeFields(
    dataNum: nat, leaf: bool,
    fnv: seq<U64>, djb: seq<U64>, data: seq<U16>,
    parent: Ptr, child: seq<Ptr>, next: Ptr)

  predicate FixedSizes(n: NodeFields) {
    n.dataNum <= 3 && |n.fnv| == 3 && |n.djb| == 3 && |n.data| == 3 && |n.child| == 4
  }

  /** A node after all its bytes have been cleared. */
  const BLANK := NodeFields(0, false, [0, 0, 0], [0, 0, 0], [0, 0, 0], 0, [0, 0, 0, 0], 0)

  type Node = n: NodeFields | FixedSizes(n) witness BLANK

  type Mem = map<Ptr, Node>

  // ----- which cells represent a tree -----

  function Slot(n: Node, i: nat): Entry
    requires i < 3
  {
    Entry(n.fnv[i], n.djb[i], n.data[i])
  }

  function WithSlot(n: Node, i: nat, e: Entry): Node
    requires i < 3
  {
    n.(fnv := n.fnv[i := e.fnv], djb := n.djb[i := e.djb], data := n.data[i := e.value])
  }

  ghost predicate LeafIs(n: Node, es: seq<Entry>) {
    n.leaf && n.dataNum == |es| && forall i | 0 <= i < |es| :: Slot(n, i) == es[i]
  }

  ghost predicate InnerIs(n: Node, kids: seq<Tree>) {
    !n.leaf && n.dataNum + 1 == |kids| && forall i | 0 <= i < |kids| :: n.child[i] == kids[i].id
  }

  /** Every separator equals the minimum key of the subtree to its right. */
  ghost predicate SepsOk(n: Node, kids: seq<Tree>) {
    forall i | 0 <= i < |kids| - 1 && i < 3 :: n.fnv[i] == Min(kids[i + 1])
  }

  /** The cells of `t` are as `t` says; the parent link of its own root is not constrained. */
  ghost predicate Rep(m: Mem, t: Tree)
    decreases t
  {
    t.id != 0 && t.id in m &&
    match t
    case Leaf(id, es) => LeafIs(m[id], es)
    case Inner(id, kids) =>
      InnerIs(m[id], kids) && SepsOk(m[id], kids) &&
      forall i | 0 <= i < |kids| :: Rep(m, kids[i]) && m[kids[i].id].parent == id
  }

  ghost predicate Reps(m: Mem, ts: seq<Tree>) {
    forall i | 0 <= i < |ts| :: Rep(m, ts[i])
  }

  /** The trees `ts` are children of the node `id`. */
  ghost predicate RepF(m: Mem, ts: seq<Tree>, id: Ptr) {
    forall i | 0 <= i < |ts| :: Rep(m, ts[i]) && m[ts[i].id].parent == id
  }

  /** An inner node whose own separators may be out of date. */
  ghost predicate Loose(m: Mem, t: Tree) {
    t.Inner? && t.id != 0 && t.id in m && InnerIs(m[t.id], t.kids) && RepF(m, t.kids, t.id)
  }

  /** The cells of the context `c`, with `t` in its hole; separators not constrained. */
  ghost predicate RepCtx(m: Mem, c: Ctx, t: Tree)
    decreases c
  {
    t.id in m &&
    match c
    case Top => m[t.id].parent == 0
    case Frame(up, id, left, right) =>
      id != 0 && id in m && m[t.id].parent == id && InnerIs(m[id], left + [t] + right) &&
      RepF(m, left, id) && RepF(m, right, id) && RepCtx(m, up, Inner(id, left + [t] + right))
  }

  /** The separators along the context are exact when `t` fills the hole. */
  ghost predicate SepCtx(m: Mem, c: Ctx, t: Tree)
    decreases c
  {
    match c
    case Top => true
    case Frame(up, id, left, right) =>
      id in m && SepsOk(m[id], left + [t] + right) && SepCtx(m, up, Inner(id, left + [t] + right))
  }

  /** The live cells are exactly the nodes of the tree, each used once. */
  ghost predicate Owns(m: Mem, ids: multiset<Ptr>) {
    multiset(m.Keys) == ids
  }

  /** Following `next` from the first of `ls` visits exactly `ls`. */
  ghost predicate Chain(m: Mem, ls: seq<Ptr>) {
    forall i | 0 <= i < |ls| :: ls[i] in m && m[ls[i]].next == Following(ls, i)
  }

  ghost function Following(ls: seq<Ptr>, i: nat): Ptr
    requires i < |ls|
  {
    if i + 1 < |ls| then ls[i + 1] else 0
  }

  // ----- frames -----

  ghost predicate Agrees(m: Mem, m': Mem, s: multiset<Ptr>) {
    forall p | p in s :: p in m && p in m' && m'[p] == m[p]
  }

  /** `m'` differs from `m` at most in the cells `d`. */
  ghost predicate Changes(m: Mem, m': Mem, d: multiset<Ptr>) {
    forall p | p in m && p !in d :: p in m' && m'[p] == m[p]
  }

  ghost predicate Distinct(s: multiset<Ptr>) {
    forall p | p in s :: s[p] == 1
  }

  lemma OwnsDistinct(m: Mem, s: multiset<Ptr>)
    requires s <= multiset(m.Keys)
    ensures Distinct(s)
    ensures forall p | p in s :: p in m
  {
    forall p | p in s
      ensures s[p] == 1 && p in m
    {
      assert multiset(m.Keys)[p] <= 1;
    }
  }

  lemma AgreesApart(m: Mem, m': Mem, s: multiset<Ptr>, d: multiset<Ptr>)
    requires s + d <= multiset(m.Keys) && Changes(m, m', d)
    ensures Agrees(m, m', s)
  {
    OwnsDistinct(m, s + d);
    forall p | p in s
      ensures p in m && p in m' && m'[p] == m[p]
    {
      assert p in s + d;
      assert (s + d)[p] == s[p] + d[p];
    }
  }

  /** A subtree survives if only the parent link of its root changes. */
  lemma {:induction false} RepFrame(m: Mem, m': Mem, t: Tree)
    requires Rep(m, t) && t.id in m' && m'[t.id] == m[t.id].(parent := m'[t.id].parent)
    requires t.Inner? ==> Agrees(m, m', IdsF(t.kids))
    ensures Rep(m', t)
    decreases t
  {
    if t.Inner? {
      forall i | 0 <= i < |t.kids|
        ensures Rep(m', t.kids[i]) && m'[t.kids[i].id].parent == t.id
      {
        var k := t.kids[i];
        IdsAt(t.kids, i);
        assert Agrees(m, m', Ids(k));
        if k.Inner? {
          assert Agrees(m, m', IdsF(k.kids));
        }
        RepFrame(m, m', k);
      }
    }
  }

  lemma RepAgrees(m: Mem, m': Mem, t: Tree)
    requires Rep(m, t) && Agrees(m, m', Ids(t))
    ensures Rep(m', t)
  {
    assert t.id in Ids(t);
    if t.Inner? {
      assert Agrees(m, m', IdsF(t.kids));
    }
    RepFrame(m, m', t);
  }

  lemma ForestAgrees(m: Mem, m': Mem, ts: seq<Tree>)
    requires Reps(m, ts)
    requires Agrees(m, m', IdsF(ts))
    ensures Reps(m', ts)
  {
    forall i | 0 <= i < |ts|
      ensures Rep(m', ts[i])
    {
      IdsAt(ts, i);
      assert Agrees(m, m', Ids(ts[i]));
      RepAgrees(m, m', ts[i]);
    }
  }

  lemma RepFAgrees(m: Mem, m': Mem, ts: seq<Tree>, id: Ptr)
    requires RepF(m, ts, id) && Agrees(m, m', IdsF(ts))
    ensures RepF(m', ts, id)
  {
    forall i | 0 <= i < |ts|
      ensures Rep(m', ts[i]) && m'[ts[i].id].parent == id
    {
      IdsAt(ts, i);
      assert Agrees(m, m', Ids(ts[i]));
      RepAgrees(m, m', ts[i]);
    }
  }

  ghost predicate IsRoot(ts: seq<Tree>, p: Ptr) {
    exists i :: 0 <= i < |ts| && ts[i].id == p
  }

  /** The trees `ts` have been handed to the parent `id`: only their parent links changed. */
  ghost predicate Adopted(m: Mem, m': Mem, ts: seq<Tree>, id: Ptr) {
    forall p | p in IdsF(ts) ::
      p in m && p in m' && m'[p] == if IsRoot(ts, p) then m[p].(parent := id) else m[p]
  }

  lemma {:induction false} RootsApart(ts: seq<Tree>, i: nat, j: nat)
    requires Distinct(IdsF(ts)) && i < |ts| && j < |ts| && i != j
    ensures ts[j].id !in Ids(ts[i])
  {
    var a, b := if i < j then i else j, if i < j then j else i;
    var l, m, r := ts[..a], ts[a + 1..b], ts[b + 1..];
    assert ts == (l + [ts[a]] + m) + [ts[b]] + r;
    ForestSplit(l + [ts[a]] + m, ts[b], r);
    ForestSplit(l, ts[a], m);
    var p := ts[j].id;
    assert p in Ids(ts[j]);
    assert IdsF(ts)[p] >= Ids(ts[i])[p] + Ids(ts[j])[p];
  }

  lemma Adoption(m: Mem, m': Mem, ts: seq<Tree>, id: Ptr)
    requires Distinct(IdsF(ts)) && Adopted(m, m', ts, id)
    requires Reps(m, ts)
    ensures RepF(m', ts, id)
  {
    forall i | 0 <= i < |ts|
      ensures Rep(m', ts[i]) && m'[ts[i].id].parent == id
    {
      var t := ts[i];
      IdsAt(ts, i);
      assert IsRoot(ts, t.id);
      if t.Inner? {
        forall p | p in IdsF(t.kids)
          ensures p in m && p in m' && m'[p] == m[p]
        {
          assert p in Ids(t) && IdsF(ts)[p] >= Ids(t)[p];
          assert Ids(t)[t.id] == 1 + IdsF(t.kids)[t.id] && IdsF(ts)[t.id] >= Ids(t)[t.id];
          assert p != t.id;
          if IsRoot(ts, p) {
            var j :| 0 <= j < |ts| && ts[j].id == p;
            RootsApart(ts, i, j);
          }
        }
        assert Agrees(m, m', IdsF(t.kids));
      }
      RepFrame(m, m', t);
    }
  }

  /** A context survives changes outside it, and any filling with the same root and
      parent link fits its hole. */
  lemma {:induction false} CtxFrame(m: Mem, m': Mem, c: Ctx, t: Tree, t': Tree)
    requires RepCtx(m, c, t) && Agrees(m, m', CtxIds(c))
    requires t'.id == t.id && t.id in m' && m'[t.id].parent == m[t.id].parent
    ensures RepCtx(m', c, t')
    decreases c
  {
    hide Ids, IdsF, Rep, RepF, InnerIs, CtxIds, Agrees;
    if c.Frame? {
      CtxAgrees(m, m', c);
      RepFAgrees(m, m', c.left, c.id);
      RepFAgrees(m, m', c.right, c.id);
      HoleInner(m[c.id], c.left, t, t', c.right);
      CtxFrame(m, m', c.up, Inner(c.id, c.left + [t] + c.right), Inner(c.id, c.left + [t'] + c.right));
    }
  }

  lemma CtxAgrees(m: Mem, m': Mem, c: Ctx)
    requires c.Frame? && Agrees(m, m', CtxIds(c))
    ensures c.id in m && c.id in m' && m'[c.id] == m[c.id]
    ensures Agrees(m, m', CtxIds(c.up)) && Agrees(m, m', IdsF(c.left)) && Agrees(m, m', IdsF(c.right))
  {
    hide IdsF, Agrees;
    assert multiset{c.id} <= CtxIds(c) && CtxIds(c.up) <= CtxIds(c);
    assert IdsF(c.left) <= CtxIds(c) && IdsF(c.right) <= CtxIds(c);
    hide CtxIds;
    AgreesLess(m, m', CtxIds(c), multiset{c.id});
    AgreesAt(m, m', multiset{c.id}, c.id);
    AgreesLess(m, m', CtxIds(c), CtxIds(c.up));
    AgreesLess(m, m', CtxIds(c), IdsF(c.left));
    AgreesLess(m, m', CtxIds(c), IdsF(c.right));
  }

  lemma AgreesLess(m: Mem, m': Mem, s: multiset<Ptr>, s': multiset<Ptr>)
    requires Agrees(m, m', s) && s' <= s
    ensures Agrees(m, m', s')
  {
  }

  lemma AgreesAt(m: Mem, m': Mem, s: multiset<Ptr>, p: Ptr)
    requires Agrees(m, m', s) && p in s
    ensures p in m && p in m' && m'[p] == m[p]
  {
  }

  lemma HoleInner(n: Node, l: seq<Tree>, t: Tree, t': Tree, r: seq<Tree>)
    requires InnerIs(n, l + [t] + r) && t'.id == t.id
    ensures InnerIs(n, l + [t'] + r)
  {
    var k, k' := l + [t] + r, l + [t'] + r;
    assert forall i | 0 <= i < |k| :: k'[i].id == k[i].id;
  }

  lemma HoleSeps(n: Node, l: seq<Tree>, t: Tree, t': Tree, r: seq<Tree>)
    requires SepsOk(n, l + [t] + r) && (Min(t') == Min(t) || l == [])
    ensures SepsOk(n, l + [t'] + r)
  {
    hide Min;
    var k, k' := l + [t] + r, l + [t'] + r;
    forall i | 0 <= i < |k'| - 1 && i < 3
      ensures n.fnv[i] == Min(k'[i + 1])
    {
      HoleAt(l, t, t', r, i + 1);
      assert n.fnv[i] == Min(k[i + 1]);
    }
  }

  lemma HoleAt(l: seq<Tree>, t: Tree, t': Tree, r: seq<Tree>, j: nat)
    requires j < |l| + 1 + |r|
    ensures (l + [t] + r)[|l|] == t
    ensures (l + [t'] + r)[j] == if j == |l| then t' else (l + [t] + r)[j]
  {
  }

  /** The hole is the leftmost position of the whole tree. */
  ghost predicate LeftEdge(c: Ctx) {
    match c
    case Top => true
    case Frame(up, _, left, _) => left == [] && LeftEdge(up)
  }

  /** Separators along a context stay exact if the minimum in the hole does not change, or
      if the hole is the leftmost position, to which no separator refers. */
  lemma {:induction false} SepFrame(m: Mem, m': Mem, c: Ctx, t: Tree, t': Tree)
    requires SepCtx(m, c, t) && Agrees(m, m', CtxIds(c))
    requires Min(t') == Min(t) || LeftEdge(c)
    ensures SepCtx(m', c, t')
    decreases c
  {
    if c.Frame? {
      assert c.id in CtxIds(c);
      assert Agrees(m, m', CtxIds(c.up));
      HoleSeps(m[c.id], c.left, t, t', c.right);
      if c.left != [] {
        assert (c.left + [t] + c.right)[0] == (c.left + [t'] + c.right)[0] == c.left[0];
      } else {
        assert (c.left + [t] + c.right)[0] == t && (c.left + [t'] + c.right)[0] == t';
      }
      SepFrame(m, m', c.up, Inner(c.id, c.left + [t] + c.right), Inner(c.id, c.left + [t'] + c.right));
    }
  }

  /** Filling an exact context with a represented subtree gives a represented tree. */
  lemma {:induction false} PlugRep(m: Mem, c: Ctx, t: Tree)
    requires RepCtx(m, c, t) && SepCtx(m, c, t) && Rep(m, t)
    ensures Rep(m, Plug(c, t)) && m[Plug(c, t).id].parent == 0
    decreases c
  {
    if c.Frame? {
      PlugRep(m, c.up, Inner(c.id, c.left + [t] + c.right));
    }
  }

  /** The usual case: everything that changed lies outside the context. */
  lemma CtxKeep(m: Mem, m': Mem, c: Ctx, t: Tree, t': Tree, d: multiset<Ptr>)
    requires RepCtx(m, c, t) && CtxIds(c) + d <= multiset(m.Keys) && Changes(m, m', d)
    requires t'.id == t.id && t.id in m' && m'[t.id].parent == m[t.id].parent
    ensures RepCtx(m', c, t')
    ensures SepCtx(m, c, t) && (Min(t') == Min(t) || LeftEdge(c)) ==> SepCtx(m', c, t')
  {
    AgreesApart(m, m', CtxIds(c), d);
    CtxFrame(m, m', c, t, t');
    if SepCtx(m, c, t) && (Min(t') == Min(t) || LeftEdge(c)) {
      SepFrame(m, m', c, t, t');
    }
  }

  lemma ChainFrame(m: Mem, m': Mem, ls: seq<Ptr>)
    requires Chain(m, ls)
    requires forall p | p in ls :: p in m' && (p in m ==> m'[p].next == m[p].next)
    ensures Chain(m', ls)
  {
    forall i | 0 <= i < |ls|
      ensures ls[i] in m' && m'[ls[i]].next == Following(ls, i)
    {
      assert ls[i] in ls;
    }
  }

  // ----- complete trees, and trees with one node split -----

  /** Memory holds exactly the tree `t`. */
  ghost predicate Built(m: Mem, t: Tree) {
    Rep(m, t) && m[t.id].parent == 0 && Owns(m, Ids(t)) && Chain(m, Leaves(t))
  }

  /** Memory holds the context `c` and the subtree `t` in its hole. */
  ghost predicate InHole(m: Mem, c: Ctx, t: Tree) {
    RepCtx(m, c, t) && SepCtx(m, c, t) && Rep(m, t) && Owns(m, CtxIds(c) + Ids(t)) &&
    Chain(m, LeavesBefore(c) + Leaves(t) + LeavesAfter(c))
  }

  /** As `InHole`, but the subtree has been split and its right half `tr` is not yet linked
      into the parent. */
  ghost predicate SplitInHole(m: Mem, c: Ctx, tl: Tree, tr: Tree) {
    c.Frame? && RepCtx(m, c, tl) && SepCtx(m, c, tl) && Rep(m, tl) && Rep(m, tr) &&
    Owns(m, CtxIds(c) + Ids(tl) + Ids(tr)) &&
    Chain(m, LeavesBefore(c) + (Leaves(tl) + Leaves(tr)) + LeavesAfter(c))
  }

  lemma InHoleBuilt(m: Mem, c: Ctx, t: Tree)
    requires InHole(m, c, t)
    ensures Built(m, Plug(c, t))
  {
    PlugRep(m, c, t);
    PlugParts(c, t);
  }

  // ----- leaves are nodes -----

  lemma {:induction false} LeavesAreNodes(t: Tree, p: Ptr)
    requires p in Leaves(t)
    ensures p in Ids(t)
    decreases t, 0
  {
    if t.Inner? {
      LeavesAreNodesF(t.kids, p);
    }
  }

  lemma {:induction false} LeavesAreNodesF(ts: seq<Tree>, p: Ptr)
    requires p in LeavesF(ts)
    ensures p in IdsF(ts)
    decreases ts, 1
  {
    if p in Leaves(ts[0]) {
      LeavesAreNodes(ts[0], p);
    } else {
      LeavesAreNodesF(ts[1..], p);
    }
  }

  lemma {:induction false} CtxLeavesAreNodes(c: Ctx, p: Ptr)
    requires p in LeavesBefore(c) || p in LeavesAfter(c)
    ensures p in CtxIds(c)
    decreases c
  {
    if p in LeavesF(c.left) {
      LeavesAreNodesF(c.left, p);
    } else if p in LeavesF(c.right) {
      LeavesAreNodesF(c.right, p);
    } else {
      CtxLeavesAreNodes(c.up, p);
    }
  }

  /** Putting the new leaf `y` behind the leaf `x`. */
  lemma ChainInsert(m: Mem, m': Mem, a: seq<Ptr>, x: Ptr, y: Ptr, b: seq<Ptr>)
    requires Chain(m, a + [x] + b)
    requires x !in a && x !in b && y !in a && y !in b && x != y
    requires x in m && x in m' && y in m' && m'[x].next == y && m'[y].next == m[x].next
    requires forall p | p in m && p != x && p != y :: p in m' && m'[p].next == m[p].next
    ensures Chain(m', a + ([x] + [y]) + b)
  {
    var ls, ls' := a + [x] + b, a + ([x] + [y]) + b;
    assert m[x].next == (if b == [] then 0 else b[0]) by {
      assert ls[|a|] == x;
      if b != [] {
        assert ls[|a| + 1] == b[0];
      }
    }
    forall i | 0 <= i < |ls'|
      ensures ls'[i] in m' && m'[ls'[i]].next == Following(ls', i)
    {
      if i < |a| {
        assert ls'[i] == ls[i] == a[i] && a[i] in a;
        assert ls[i + 1] == ls'[i + 1];
      } else if i == |a| {
        assert ls'[i] == x && ls'[i + 1] == y;
      } else if i == |a| + 1 {
        assert ls'[i] == y;
        if b != [] {
          assert ls'[i + 1] == b[0];
        }
      } else {
        var k := i - |a| - 2;
        assert ls'[i] == ls[i - 1] == b[k] && b[k] in b;
        if i + 1 < |ls'| {
          assert ls'[i + 1] == ls[i];
        }
      }
    }
  }

  /** Taking the leaf `y` out from behind the leaf `x`. */
  lemma ChainRemove(m: Mem, m': Mem, a: seq<Ptr>, x: Ptr, y: Ptr, b: seq<Ptr>)
    requires Chain(m, a + ([x] + [y]) + b)
    requires x !in a && x !in b && y !in a && y !in b && x != y
    requires x in m' && y in m && m'[x].next == m[y].next
    requires forall p | p in m && p != x && p != y :: p in m' && m'[p].next == m[p].next
    ensures Chain(m', a + [x] + b)
  {
    var ls, ls' := a + ([x] + [y]) + b, a + [x] + b;
    assert m[y].next == (if b == [] then 0 else b[0]) by {
      assert ls[|a| + 1] == y;
      if b != [] {
        assert ls[|a| + 2] == b[0];
      }
    }
    forall i | 0 <= i < |ls'|
      ensures ls'[i] in m' && m'[ls'[i]].next == Following(ls', i)
    {
      if i < |a| {
        assert ls'[i] == ls[i] == a[i] && a[i] in a;
        assert ls[i + 1] == ls'[i + 1];
      } else if i == |a| {
        assert ls'[i] == x;
        if b != [] {
          assert ls'[i + 1] == b[0];
        }
      } else {
        var k := i - |a| - 1;
        assert ls'[i] == ls[i + 1] == b[k] && b[k] in b;
        if i + 1 < |ls'| {
          assert ls'[i + 1] == ls[i + 2];
        }
      }
    }
  }

  /** Nodes of a context and of what fills it are different. */
  lemma HoleApart(m: Mem, c: Ctx, s: multiset<Ptr>, p: Ptr)
    requires CtxIds(c) + s <= multiset(m.Keys) && p in s
    ensures p !in CtxIds(c) && p !in LeavesBefore(c) && p !in LeavesAfter(c)
  {
    OwnsDistinct(m, CtxIds(c) + s);
    assert (CtxIds(c) + s)[p] == CtxIds(c)[p] + s[p];
    assert p in CtxIds(c) + s;
    if p in LeavesBefore(c) || p in LeavesAfter(c) {
      CtxLeavesAreNodes(c, p);
    }
  }

  // ----- handing trees to a new parent, one by one -----

  /** Only the roots of `mv` got a new parent. */
  ghost predicate Reparented(m: Mem, m': Mem, x: Ptr, y: Ptr, mv: seq<Tree>, to: Ptr) {
    forall p | p in m && p != x && p != y :: p in m' &&
      m'[p] == if IsRoot(mv, p) then m[p].(parent := to) else m[p]
  }

  lemma RepInner(m: Mem, t: Tree)
    requires Rep(m, t) && t.Inner?
    ensures t.id in m && InnerIs(m[t.id], t.kids)
  {
  }

  lemma ReparentedNone(m: Mem, m': Mem, x: Ptr, y: Ptr, to: Ptr)
    requires m'.Keys == m.Keys && forall p | p in m && p != x && p != y :: m'[p] == m[p]
    ensures Reparented(m, m', x, y, [], to)
  {
  }

  lemma ReparentedElsewhere(m: Mem, m1: Mem, m2: Mem, x: Ptr, y: Ptr, mv: seq<Tree>, to: Ptr)
    requires Reparented(m, m1, x, y, mv, to) && forall p | p in m1 && p != x && p != y :: p in m2 && m2[p] == m1[p]
    ensures Reparented(m, m2, x, y, mv, to)
  {
    hide IsRoot;
  }

  lemma ReparentedMeans(m: Mem, m': Mem, x: Ptr, y: Ptr, mv: seq<Tree>, to: Ptr)
    requires Reparented(m, m', x, y, mv, to)
    ensures forall p | p in m && p != x && p != y ::
      p in m' && m'[p] == if IsRoot(mv, p) then m[p].(parent := to) else m[p]
  {
  }

  lemma ReparentedNext(m: Mem, m1: Mem, m2: Mem, x: Ptr, y: Ptr, ts: seq<Tree>, i: nat, to: Ptr)
    requires i < |ts| && Reparented(m, m1, x, y, ts[..i], to)
    requires ts[i].id in m && m2.Keys == m1.Keys
    requires ts[i].id != x && ts[i].id != y ==> ts[i].id in m2 && m2[ts[i].id] == m1[ts[i].id].(parent := to)
    requires forall p | p in m1 && p != x && p != y && p != ts[i].id :: m2[p] == m1[p]
    ensures Reparented(m, m2, x, y, ts[..i + 1], to)
  {
    forall p | p in m && p != x && p != y
      ensures p in m2 && m2[p] == if IsRoot(ts[..i + 1], p) then m[p].(parent := to) else m[p]
    {
      RootsNext(ts, i, p);
    }
  }

  lemma RootsNext(ts: seq<Tree>, i: nat, p: Ptr)
    requires i < |ts|
    ensures IsRoot(ts[..i + 1], p) <==> IsRoot(ts[..i], p) || p == ts[i].id
  {
    var k, k' := ts[..i], ts[..i + 1];
    if j :| 0 <= j < |k'| && k'[j].id == p {
      assert j < i ==> k[j].id == p;
    }
    if j :| 0 <= j < |k| && k[j].id == p {
      assert k'[j].id == p;
    }
    assert k'[i].id == ts[i].id;
  }
}
