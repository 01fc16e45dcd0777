/** What deletion does to memory and tree: separators along a path may be out of date until
    `fix_up` has passed, and neighbouring children of one parent exchange entries or merge. */
module Rebalancing {
  import opened BPlusTrees
  import opened NodeArena
  import opened IndexSteps

  /** As `InHole`, but separators on the path, including those of `t`, may be out of date. */
  ghost predicate LooseInHole(m: Mem, c: Ctx, t: Tree) {
    RepCtx(m, c, t) && (if t.Leaf? then Rep(m, t) else Loose(m, t)) && Owns(m, CtxIds(c) + Ids(t)) &&
    Chain(m, LeavesBefore(c) + Leaves(t) + LeavesAfter(c))
  }

  /** Taking an entry from a leaf may leave separators out of date. */
  lemma LeafLoosened(m: Mem, m': Mem, c: Ctx, id: Ptr, es: seq<Entry>, es': seq<Entry>)
    requires InHole(m, c, Leaf(id, es)) && LeafRewritten(m, m', id, es')
    ensures LooseInHole(m', c, Leaf(id, es'))
  {
    CtxKeep(m, m', c, Leaf(id, es), Leaf(id, es'), multiset{id});
    assert m'.Keys == m.Keys;
    ChainFrame(m, m', LeavesBefore(c) + [id] + LeavesAfter(c));
  }

  // ----- repairing separators -----

  /** Only keys of the node `p` were rewritten. */
  ghost predicate KeysRewritten(m: Mem, m': Mem, p: Ptr) {
    p in m && p in m' && m' == m[p := m'[p]] && m'[p] == m[p].(fnv := m'[p].fnv)
  }

  lemma KeysRep(m: Mem, m': Mem, t: Tree)
    requires Loose(m, t) && KeysRewritten(m, m', t.id) && Ids(t) <= multiset(m.Keys)
    ensures Loose(m', t)
    ensures SepsOk(m'[t.id], t.kids) ==> Rep(m', t)
  {
    AgreesApart(m, m', IdsF(t.kids), multiset{t.id});
    RepFAgrees(m, m', t.kids, t.id);
  }

  /** Rewriting the keys of a node leaves everything that does not contain it. */
  lemma KeysElsewhere(m: Mem, m': Mem, p: Ptr, t: Tree)
    requires KeysRewritten(m, m', p) && Ids(t) + multiset{p} <= multiset(m.Keys)
    ensures Rep(m, t) ==> Rep(m', t)
    ensures Loose(m, t) ==> Loose(m', t)
  {
    AgreesApart(m, m', Ids(t), multiset{p});
    if Rep(m, t) {
      RepAgrees(m, m', t);
    }
    if Loose(m, t) {
      assert t.id in Ids(t);
      assert Agrees(m, m', IdsF(t.kids));
      RepFAgrees(m, m', t.kids, t.id);
    }
  }

  lemma KeysInHole(m: Mem, m': Mem, c: Ctx, t: Tree)
    requires LooseInHole(m, c, t) && t.Inner? && KeysRewritten(m, m', t.id)
    ensures LooseInHole(m', c, t)
    ensures SepsOk(m'[t.id], t.kids) ==> Rep(m', t)
  {
    KeysRep(m, m', t);
    assert t.id in Ids(t) && multiset{t.id} <= Ids(t);
    hide Ids, Leaves, LeavesBefore, LeavesAfter, RepCtx, SepCtx, Rep, Loose;
    CtxKeep(m, m', c, t, t, multiset{t.id});
    assert m'.Keys == m.Keys;
    ChainFrame(m, m', LeavesBefore(c) + Leaves(t) + LeavesAfter(c));
  }

  /** One step up: a repaired subtree becomes a child of its loose parent. */
  lemma Climb(m: Mem, c: Ctx, t: Tree)
    requires LooseInHole(m, c, t) && Rep(m, t) && c.Frame?
    ensures LooseInHole(m, c.up, Inner(c.id, c.left + [t] + c.right))
  {
    var t' := Inner(c.id, c.left + [t] + c.right);
    assert Leaves(t') == LeavesF(c.left) + Leaves(t) + LeavesF(c.right)
      && Ids(t') == multiset{c.id} + (IdsF(c.left) + Ids(t) + IdsF(c.right)) by {
      ForestSplit(c.left, t, c.right);
    }
    assert LeavesBefore(c) + Leaves(t) + LeavesAfter(c) == LeavesBefore(c.up) + Leaves(t') + LeavesAfter(c.up) by {
      Regroup(LeavesBefore(c.up), LeavesF(c.left), Leaves(t), LeavesF(c.right), LeavesAfter(c.up));
    }
    assert RepF(m, t'.kids, c.id);
    ClimbIds(CtxIds(c.up), c.id, IdsF(c.left), Ids(t), IdsF(c.right));
  }

  lemma ClimbIds(up: multiset<Ptr>, id: Ptr, l: multiset<Ptr>, t: multiset<Ptr>, r: multiset<Ptr>)
    ensures multiset{id} + l + r + up + t == up + (multiset{id} + (l + t + r))
  {
  }

  lemma ClimbShape(c: Ctx, t: Tree, h: nat)
    requires c.Frame? && CtxShaped(c, h) && Shaped(t, h)
    ensures Shaped(Inner(c.id, c.left + [t] + c.right), h + 1) && CtxShaped(c.up, h + 1)
  {
  }

  /** At the root, a repaired tree is complete. */
  lemma LooseDone(m: Mem, t: Tree)
    requires LooseInHole(m, Top, t) && Rep(m, t)
    ensures Built(m, t)
  {
    assert [] + Leaves(t) + [] == Leaves(t);
  }

  // ----- two neighbouring children of one parent -----

  ghost predicate Sibling(m: Mem, t: Tree, parent: Ptr) {
    t.id in m && m[t.id].parent == parent && if t.Leaf? then Rep(m, t) else Loose(m, t)
  }

  ghost function Pair(a: seq<Tree>, x: Tree, y: Tree, b: seq<Tree>): seq<Tree> {
    a + [x, y] + b
  }

  /** The node `pid` has the children `a`, `x`, `y`, `b`; `x` and `y` may be loose. */
  ghost predicate PairOpen(m: Mem, c: Ctx, pid: Ptr, a: seq<Tree>, x: Tree, y: Tree, b: seq<Tree>) {
    pid != 0 && pid in m && RepCtx(m, c, Inner(pid, Pair(a, x, y, b))) && InnerIs(m[pid], Pair(a, x, y, b)) &&
    RepF(m, a, pid) && RepF(m, b, pid) && Sibling(m, x, pid) && Sibling(m, y, pid) &&
    Owns(m, CtxIds(c) + multiset{pid} + (IdsF(a) + (Ids(x) + Ids(y)) + IdsF(b))) &&
    Chain(m, (LeavesBefore(c) + LeavesF(a)) + (Leaves(x) + Leaves(y)) + (LeavesF(b) + LeavesAfter(c)))
  }

  /** The node in the hole and its left neighbour. */
  lemma OpenLeft(m: Mem, c: Ctx, t: Tree)
    requires LooseInHole(m, c, t) && c.Frame? && c.left != []
    ensures var n := |c.left| - 1;
      PairOpen(m, c.up, c.id, c.left[..n], c.left[n], t, c.right) &&
      c.left + [t] + c.right == Pair(c.left[..n], c.left[n], t, c.right)
  {
    var n := |c.left| - 1;
    var a, x := c.left[..n], c.left[n];
    assert c.left == a + [x];
    PairShift(a, x, t, c.right);
    assert LeavesF(c.left) == LeavesF(a) + Leaves(x) && IdsF(c.left) == IdsF(a) + Ids(x) by {
      ForestConcat(a, [x]);
      ForestOne(x);
    }
    assert RepF(m, a, c.id) && Rep(m, x) && m[x.id].parent == c.id;
    Associate(LeavesBefore(c.up), LeavesF(a), Leaves(x), Leaves(t), LeavesF(c.right) + LeavesAfter(c.up));
    PairIds(CtxIds(c.up), c.id, IdsF(a), Ids(x), Ids(t), IdsF(c.right));
  }

  lemma PairShift(a: seq<Tree>, x: Tree, y: Tree, b: seq<Tree>)
    ensures (a + [x]) + [y] + b == Pair(a, x, y, b) && a + [x] + ([y] + b) == Pair(a, x, y, b)
  {
  }

  lemma PairIds(up: multiset<Ptr>, id: Ptr, a: multiset<Ptr>, x: multiset<Ptr>, y: multiset<Ptr>, b: multiset<Ptr>)
    ensures multiset{id} + (a + x) + b + up + y == up + multiset{id} + (a + (x + y) + b)
    ensures multiset{id} + a + (y + b) + up + x == up + multiset{id} + (a + (x + y) + b)
  {
  }

  /** The node in the hole and its right neighbour. */
  lemma OpenRight(m: Mem, c: Ctx, t: Tree)
    requires LooseInHole(m, c, t) && c.Frame? && c.right != []
    ensures PairOpen(m, c.up, c.id, c.left, t, c.right[0], c.right[1..]) &&
      c.left + [t] + c.right == Pair(c.left, t, c.right[0], c.right[1..])
  {
    var y, b := c.right[0], c.right[1..];
    assert c.right == [y] + b;
    PairShift(c.left, t, y, b);
    assert LeavesF(c.right) == Leaves(y) + LeavesF(b) && IdsF(c.right) == Ids(y) + IdsF(b);
    assert RepF(m, b, c.id) && Rep(m, y) && m[y.id].parent == c.id;
    assert Leaves(y) + LeavesF(b) + LeavesAfter(c.up) == Leaves(y) + (LeavesF(b) + LeavesAfter(c.up));
    Associate(LeavesBefore(c.up) + LeavesF(c.left), [], Leaves(t), Leaves(y), LeavesF(b) + LeavesAfter(c.up));
    PairIds(CtxIds(c.up), c.id, IdsF(c.left), Ids(t), Ids(y), IdsF(b));
  }

  lemma PairEntries(pid: Ptr, a: seq<Tree>, x: Tree, y: Tree, b: seq<Tree>)
    ensures Entries(Inner(pid, Pair(a, x, y, b))) == EntriesF(a) + (Entries(x) + Entries(y)) + EntriesF(b)
  {
    ForestSplit2(a, x, y, b);
  }

  /** The neighbours have exchanged entries or children and are exact again. */
  lemma PairBorrowed(m: Mem, m': Mem, c: Ctx, pid: Ptr, a: seq<Tree>, x: Tree, y: Tree, b: seq<Tree>, x': Tree,
      y': Tree)
    requires PairOpen(m, c, pid, a, x, y, b)
    requires m'.Keys == m.Keys && Changes(m, m', Ids(x) + Ids(y))
    requires x'.id == x.id && y'.id == y.id && Rep(m', x') && Rep(m', y')
    requires m'[x.id].parent == pid && m'[y.id].parent == pid
    requires Ids(x') + Ids(y') == Ids(x) + Ids(y) && Leaves(x') + Leaves(y') == Leaves(x) + Leaves(y)
    requires forall p | p in m :: m'[p].next == m[p].next
    ensures LooseInHole(m', c, Inner(pid, Pair(a, x', y', b)))
  {
    var t' := Inner(pid, Pair(a, x', y', b));
    BorrowedLoose(m, m', c, pid, a, x, y, b, x', y', t');
    BorrowedOwned(m, m', c, pid, a, x, y, b, x', y');
    BorrowedChain(m, m', c, pid, a, x, y, b, x', y');
  }

  lemma BorrowedLoose(m: Mem, m': Mem, c: Ctx, pid: Ptr, a: seq<Tree>, x: Tree, y: Tree, b: seq<Tree>, x': Tree,
      y': Tree, t': Tree)
    requires PairOpen(m, c, pid, a, x, y, b) && t' == Inner(pid, Pair(a, x', y', b))
    requires Changes(m, m', Ids(x) + Ids(y)) && x'.id == x.id && y'.id == y.id && Rep(m', x') && Rep(m', y')
    requires m'[x.id].parent == pid && m'[y.id].parent == pid
    ensures RepCtx(m', c, t') && Loose(m', t')
  {
    PairFrame(m, m', c, pid, a, b, Ids(x) + Ids(y), Inner(pid, Pair(a, x, y, b)), t');
    PairInnerIs(m'[pid], a, x, y, x', y', b);
    AdoptedMiddle(m', a, [x', y'], b, pid);
  }

  lemma BorrowedOwned(m: Mem, m': Mem, c: Ctx, pid: Ptr, a: seq<Tree>, x: Tree, y: Tree, b: seq<Tree>, x': Tree,
      y': Tree)
    requires Owns(m, CtxIds(c) + multiset{pid} + (IdsF(a) + (Ids(x) + Ids(y)) + IdsF(b)))
    requires m'.Keys == m.Keys && Ids(x') + Ids(y') == Ids(x) + Ids(y)
    ensures Owns(m', CtxIds(c) + Ids(Inner(pid, Pair(a, x', y', b))))
  {
    PairFlat(a, x', y', b);
    Gather(CtxIds(c), multiset{pid}, IdsF(a) + (Ids(x) + Ids(y)) + IdsF(b));
  }

  lemma BorrowedChain(m: Mem, m': Mem, c: Ctx, pid: Ptr, a: seq<Tree>, x: Tree, y: Tree, b: seq<Tree>, x': Tree,
      y': Tree)
    requires Chain(m, (LeavesBefore(c) + LeavesF(a)) + (Leaves(x) + Leaves(y)) + (LeavesF(b) + LeavesAfter(c)))
    requires m'.Keys == m.Keys && forall p | p in m :: m'[p].next == m[p].next
    requires Leaves(x') + Leaves(y') == Leaves(x) + Leaves(y)
    ensures Chain(m', LeavesBefore(c) + Leaves(Inner(pid, Pair(a, x', y', b))) + LeavesAfter(c))
  {
    PairFlat(a, x', y', b);
    Regroup(LeavesBefore(c), LeavesF(a), Leaves(x) + Leaves(y), LeavesF(b), LeavesAfter(c));
    ChainKeep(m, m', LeavesBefore(c) + (LeavesF(a) + (Leaves(x) + Leaves(y)) + LeavesF(b)) + LeavesAfter(c));
  }

  lemma ChainKeep(m: Mem, m': Mem, ls: seq<Ptr>)
    requires Chain(m, ls) && m'.Keys == m.Keys && forall p | p in m :: m'[p].next == m[p].next
    ensures Chain(m', ls)
  {
    forall i | 0 <= i < |ls|
      ensures ls[i] in m' && m'[ls[i]].next == Following(ls, i)
    {
    }
  }

  lemma PairFlat(a: seq<Tree>, x: Tree, y: Tree, b: seq<Tree>)
    ensures LeavesF(Pair(a, x, y, b)) == LeavesF(a) + (Leaves(x) + Leaves(y)) + LeavesF(b)
    ensures IdsF(Pair(a, x, y, b)) == IdsF(a) + (Ids(x) + Ids(y)) + IdsF(b)
  {
    ForestSplit2(a, x, y, b);
  }

  lemma PairInnerIs(n: Node, a: seq<Tree>, x: Tree, y: Tree, x': Tree, y': Tree, b: seq<Tree>)
    requires InnerIs(n, Pair(a, x, y, b)) && x'.id == x.id && y'.id == y.id
    ensures InnerIs(n, Pair(a, x', y', b))
  {
    var k, k' := Pair(a, x, y, b), Pair(a, x', y', b);
    assert forall i | 0 <= i < |k| :: k'[i].id == k[i].id;
  }

  /** Everything around the pair is untouched. */
  lemma PairFrame(m: Mem, m': Mem, c: Ctx, pid: Ptr, a: seq<Tree>, b: seq<Tree>, d: multiset<Ptr>, t: Tree, t': Tree)
    requires RepCtx(m, c, t) && RepF(m, a, pid) && RepF(m, b, pid) && pid in m && t.id == t'.id == pid
    requires Owns(m, CtxIds(c) + multiset{pid} + (IdsF(a) + d + IdsF(b)))
    requires Changes(m, m', d)
    ensures RepCtx(m', c, t') && RepF(m', a, pid) && RepF(m', b, pid)
    ensures pid in m' && m'[pid] == m[pid]
  {
    PairSubsets(m, CtxIds(c), pid, IdsF(a), d, IdsF(b));
    AgreesApart(m, m', multiset{pid}, d);
    assert pid in multiset{pid};
    MergedFrame(m, m', c, pid, a, b, d, t, t');
  }

  lemma PairSubsets(m: Mem, up: multiset<Ptr>, id: Ptr, a: multiset<Ptr>, d: multiset<Ptr>, b: multiset<Ptr>)
    requires Owns(m, up + multiset{id} + (a + d + b))
    ensures up + a + b + d <= multiset(m.Keys) && multiset{id} + d <= multiset(m.Keys)
    ensures up + a + b + (d + multiset{id}) <= multiset(m.Keys)
  {
  }

  // The right neighbour has been merged into the left one and released.

  lemma MergedLoose(m: Mem, m': Mem, c: Ctx, pid: Ptr, a: seq<Tree>, x: Tree, y: Tree, b: seq<Tree>, x': Tree, t': Tree)
    requires PairOpen(m, c, pid, a, x, y, b) && t' == Inner(pid, a + [x'] + b)
    requires Changes(m, m', Ids(x) + Ids(y) + multiset{pid})
    requires pid in m' && InnerIs(m'[pid], a + [x'] + b) && m'[pid].parent == m[pid].parent
    requires Rep(m', x') && m'[x'.id].parent == pid
    ensures RepCtx(m', c, t') && Loose(m', t')
  {
    PairSubsets(m, CtxIds(c), pid, IdsF(a), Ids(x) + Ids(y), IdsF(b));
    MergedFrame(m, m', c, pid, a, b, Ids(x) + Ids(y) + multiset{pid}, Inner(pid, Pair(a, x, y, b)), t');
    AdoptedMiddle(m', a, [x'], b, pid);
  }

  lemma MergedOwned(m: Mem, m': Mem, c: Ctx, pid: Ptr, a: seq<Tree>, x: Tree, y: Tree, b: seq<Tree>, x': Tree)
    requires Owns(m, CtxIds(c) + multiset{pid} + (IdsF(a) + (Ids(x) + Ids(y)) + IdsF(b)))
    requires m'.Keys == m.Keys - {y.id} && Ids(x') + multiset{y.id} == Ids(x) + Ids(y)
    ensures Owns(m', CtxIds(c) + Ids(Inner(pid, a + [x'] + b)))
  {
    ForestSplit(a, x', b);
    MergedOwns(m, m', CtxIds(c), pid, IdsF(a), Ids(x) + Ids(y), Ids(x'), IdsF(b), y.id);
  }

  lemma MergedChain(m': Mem, c: Ctx, pid: Ptr, a: seq<Tree>, b: seq<Tree>, x': Tree)
    requires Chain(m', (LeavesBefore(c) + LeavesF(a)) + Leaves(x') + (LeavesF(b) + LeavesAfter(c)))
    ensures Chain(m', LeavesBefore(c) + Leaves(Inner(pid, a + [x'] + b)) + LeavesAfter(c))
  {
    ForestSplit(a, x', b);
    Regroup(LeavesBefore(c), LeavesF(a), Leaves(x'), LeavesF(b), LeavesAfter(c));
  }

  lemma MergedFrame(m: Mem, m': Mem, c: Ctx, pid: Ptr, a: seq<Tree>, b: seq<Tree>, d: multiset<Ptr>, t: Tree, t': Tree)
    requires RepCtx(m, c, t) && RepF(m, a, pid) && RepF(m, b, pid) && t.id == t'.id == pid
    requires CtxIds(c) + IdsF(a) + IdsF(b) + d <= multiset(m.Keys)
    requires Changes(m, m', d) && pid in m' && m'[pid].parent == m[pid].parent
    ensures RepCtx(m', c, t') && RepF(m', a, pid) && RepF(m', b, pid)
  {
    AgreesApart(m, m', CtxIds(c) + IdsF(a) + IdsF(b), d);
    assert Agrees(m, m', CtxIds(c)) && Agrees(m, m', IdsF(a)) && Agrees(m, m', IdsF(b));
    CtxFrame(m, m', c, t, t');
    RepFAgrees(m, m', a, pid);
    RepFAgrees(m, m', b, pid);
  }

  lemma MergedOwns(m: Mem, m': Mem, up: multiset<Ptr>, id: Ptr, a: multiset<Ptr>, d: multiset<Ptr>,
      d': multiset<Ptr>, b: multiset<Ptr>, y: Ptr)
    requires Owns(m, up + multiset{id} + (a + d + b)) && m'.Keys == m.Keys - {y} && d' + multiset{y} == d
    ensures Owns(m', up + (multiset{id} + (a + d' + b)))
  {
    var all' := up + (multiset{id} + (a + d' + b));
    assert multiset(m.Keys) == all' + multiset{y};
    assert y in all' + multiset{y};
    assert m.Keys == m'.Keys + {y};
    assert multiset(m.Keys) == multiset(m'.Keys) + multiset{y};
    Cancel(multiset(m'.Keys), all', y);
  }

  lemma Cancel(a: multiset<Ptr>, b: multiset<Ptr>, y: Ptr)
    requires a + multiset{y} == b + multiset{y}
    ensures a == b
  {
    assert a + multiset{y} - multiset{y} == a;
    assert b + multiset{y} - multiset{y} == b;
  }

  lemma AdoptedMiddle(m: Mem, a: seq<Tree>, s: seq<Tree>, b: seq<Tree>, id: Ptr)
    requires RepF(m, a, id) && RepF(m, s, id) && RepF(m, b, id)
    ensures RepF(m, a + s + b, id)
  {
  }

  // ----- leaves as neighbours -----

  /** Two leaves were rewritten and keep their links. */
  ghost predicate TwoLeaves(m: Mem, m': Mem, x: Ptr, ex: seq<Entry>, y: Ptr, ey: seq<Entry>) {
    x in m && y in m && x in m' && y in m' && m' == m[x := m'[x]][y := m'[y]] &&
    m'[x].parent == m[x].parent && m'[x].next == m[x].next && LeafIs(m'[x], ex) &&
    m'[y].parent == m[y].parent && m'[y].next == m[y].next && LeafIs(m'[y], ey)
  }

  lemma LeavesBorrowed(m: Mem, m': Mem, c: Ctx, pid: Ptr, a: seq<Tree>, x: Tree, y: Tree, b: seq<Tree>,
      ex: seq<Entry>, ey: seq<Entry>)
    requires PairOpen(m, c, pid, a, x, y, b) && x.Leaf? && y.Leaf? && TwoLeaves(m, m', x.id, ex, y.id, ey)
    ensures LooseInHole(m', c, Inner(pid, Pair(a, Leaf(x.id, ex), Leaf(y.id, ey), b)))
  {
    assert m'.Keys == m.Keys;
    PairBorrowed(m, m', c, pid, a, x, y, b, Leaf(x.id, ex), Leaf(y.id, ey));
  }

  /** The two nodes of a pair are different cells, and neither is the parent. */
  lemma PairApart(m: Mem, c: Ctx, pid: Ptr, a: seq<Tree>, x: Tree, y: Tree, b: seq<Tree>)
    requires PairOpen(m, c, pid, a, x, y, b)
    ensures Ids(x) + Ids(y) + multiset{pid} <= multiset(m.Keys)
    ensures x.id != y.id && x.id != pid && y.id != pid
  {
    assert x.id in Ids(x) && y.id in Ids(y);
    PairSubsets(m, CtxIds(c), pid, IdsF(a), Ids(x) + Ids(y), IdsF(b));
    var d := Ids(x) + Ids(y) + multiset{pid};
    assert d <= multiset(m.Keys);
    OwnsDistinct(m, d);
    assert d[x.id] == Ids(x)[x.id] + Ids(y)[x.id] + multiset{pid}[x.id];
    assert d[y.id] == Ids(x)[y.id] + Ids(y)[y.id] + multiset{pid}[y.id];
  }

  /** The chain around a pair does not visit the pair a second time. */
  lemma PairChainApart(m: Mem, c: Ctx, pid: Ptr, a: seq<Tree>, x: Tree, y: Tree, b: seq<Tree>, p: Ptr)
    requires PairOpen(m, c, pid, a, x, y, b) && p in Ids(x) + Ids(y)
    ensures p !in LeavesBefore(c) + LeavesF(a) && p !in LeavesF(b) + LeavesAfter(c)
  {
    PairSubsets(m, CtxIds(c), pid, IdsF(a), Ids(x) + Ids(y), IdsF(b));
    var d := CtxIds(c) + IdsF(a) + IdsF(b) + (Ids(x) + Ids(y));
    OwnsDistinct(m, d);
    assert p in d && d[p] == CtxIds(c)[p] + IdsF(a)[p] + IdsF(b)[p] + (Ids(x) + Ids(y))[p];
    if p in LeavesF(a) {
      LeavesAreNodesF(a, p);
    } else if p in LeavesF(b) {
      LeavesAreNodesF(b, p);
    } else if p in LeavesBefore(c) || p in LeavesAfter(c) {
      CtxLeavesAreNodes(c, p);
    }
  }

  /** The right leaf was merged into the left one, dropped from the parent and released. */
  lemma LeavesMerged(m: Mem, m': Mem, c: Ctx, pid: Ptr, a: seq<Tree>, x: Tree, y: Tree, b: seq<Tree>, es: seq<Entry>)
    requires PairOpen(m, c, pid, a, x, y, b) && x.Leaf? && y.Leaf?
    requires x.id in m' && pid in m' && x.id != y.id && pid != y.id && x.id != pid
    requires m' == m[x.id := m'[x.id]][pid := m'[pid]] - {y.id}
    requires LeafIs(m'[x.id], es) && m'[x.id].parent == pid && m'[x.id].next == m[y.id].next
    requires InnerIs(m'[pid], a + [Leaf(x.id, es)] + b) && m'[pid].parent == m[pid].parent
    ensures LooseInHole(m', c, Inner(pid, a + [Leaf(x.id, es)] + b))
  {
    var x' := Leaf(x.id, es);
    MergedLoose(m, m', c, pid, a, x, y, b, x', Inner(pid, a + [x'] + b));
    assert Owns(m', CtxIds(c) + Ids(Inner(pid, a + [x'] + b))) by {
      assert m'.Keys == m.Keys - {y.id};
      MergedOwned(m, m', c, pid, a, x, y, b, x');
    }
    LeavesMergedChain(m, m', c, pid, a, x, y, b, es);
  }

  lemma LeavesMergedChain(m: Mem, m': Mem, c: Ctx, pid: Ptr, a: seq<Tree>, x: Tree, y: Tree, b: seq<Tree>,
      es: seq<Entry>)
    requires PairOpen(m, c, pid, a, x, y, b) && x.Leaf? && y.Leaf?
    requires x.id in m' && pid in m' && x.id != y.id && pid != y.id && x.id != pid
    requires m' == m[x.id := m'[x.id]][pid := m'[pid]] - {y.id}
    requires m'[x.id].next == m[y.id].next && InnerIs(m'[pid], a + [Leaf(x.id, es)] + b)
    ensures Chain(m', LeavesBefore(c) + Leaves(Inner(pid, a + [Leaf(x.id, es)] + b)) + LeavesAfter(c))
  {
    var ls, rs := LeavesBefore(c) + LeavesF(a), LeavesF(b) + LeavesAfter(c);
    PairChainApart(m, c, pid, a, x, y, b, x.id);
    PairChainApart(m, c, pid, a, x, y, b, y.id);
    ParentNotInChain(m, c, pid, a, x, y, b);
    var m1 := m'[pid := m[pid]];
    ChainRemove(m, m1, ls, x.id, y.id, rs);
    ChainExcept(m1, m', ls + [x.id] + rs, pid);
    MergedChain(m', c, pid, a, b, Leaf(x.id, es));
  }

  lemma ChainExcept(m: Mem, m': Mem, ls: seq<Ptr>, p: Ptr)
    requires Chain(m, ls) && p !in ls
    requires forall q | q in m && q != p :: q in m' && m'[q].next == m[q].next
    ensures Chain(m', ls)
  {
    forall i | 0 <= i < |ls|
      ensures ls[i] in m' && m'[ls[i]].next == Following(ls, i)
    {
      assert ls[i] in ls;
    }
  }

  lemma ParentNotInChain(m: Mem, c: Ctx, pid: Ptr, a: seq<Tree>, x: Tree, y: Tree, b: seq<Tree>)
    requires PairOpen(m, c, pid, a, x, y, b)
    ensures pid !in LeavesBefore(c) + LeavesF(a) && pid !in LeavesF(b) + LeavesAfter(c)
    ensures pid !in Ids(x) && pid !in Ids(y)
  {
    var d := CtxIds(c) + multiset{pid} + (IdsF(a) + (Ids(x) + Ids(y)) + IdsF(b));
    OwnsDistinct(m, d);
    assert pid in d && d[pid] == CtxIds(c)[pid] + 1 + IdsF(a)[pid] + Ids(x)[pid] + Ids(y)[pid] + IdsF(b)[pid];
    if pid in LeavesF(a) {
      LeavesAreNodesF(a, pid);
    } else if pid in LeavesF(b) {
      LeavesAreNodesF(b, pid);
    } else if pid in LeavesBefore(c) || pid in LeavesAfter(c) {
      CtxLeavesAreNodes(c, pid);
    }
  }

  // ----- inner nodes as neighbours -----

  /** The children of two neighbours were redistributed as `kx` and `ky`. */
  ghost predicate Moved(m: Mem, m': Mem, x: Ptr, kx: seq<Tree>, y: Ptr, ky: seq<Tree>) {
    m'.Keys == m.Keys && x in m && y in m && InnerIs(m'[x], kx) && InnerIs(m'[y], ky) &&
    m'[x].parent == m[x].parent && m'[x].next == m[x].next &&
    m'[y].parent == m[y].parent && m'[y].next == m[y].next &&
    Handed(m, m', x, kx, y, ky)
  }

  ghost predicate Handed(m: Mem, m': Mem, x: Ptr, kx: seq<Tree>, y: Ptr, ky: seq<Tree>) {
    forall p | p in m && p != x && p != y :: p in m' &&
      m'[p] == if IsRoot(kx, p) then m[p].(parent := x) else if IsRoot(ky, p) then m[p].(parent := y) else m[p]
  }

  /** One of the two forests arrives at its new parent. */
  lemma HandedAdopt(m: Mem, m': Mem, x: Ptr, kx: seq<Tree>, y: Ptr, ky: seq<Tree>)
    requires Handed(m, m', x, kx, y, ky) && Reps(m, kx) && Reps(m, ky)
    requires multiset{x} + multiset{y} + (IdsF(kx) + IdsF(ky)) <= multiset(m.Keys)
    ensures RepF(m', kx, x) && RepF(m', ky, y)
    ensures Changes(m, m', multiset{x} + multiset{y} + (IdsF(kx) + IdsF(ky)))
  {
    var d := multiset{x} + multiset{y} + (IdsF(kx) + IdsF(ky));
    OwnsDistinct(m, d);
    assert x in d && y in d;
    forall p | p in IdsF(kx) + IdsF(ky)
      ensures p in m && p != x && p != y && (p in IdsF(kx) ==> !IsRoot(ky, p)) && (p in IdsF(ky) ==> !IsRoot(kx, p))
      ensures IdsF(kx)[p] + IdsF(ky)[p] == 1
    {
      assert p in d && d[p] == multiset{x}[p] + multiset{y}[p] + IdsF(kx)[p] + IdsF(ky)[p];
      RootsAreNodes(kx, p);
      RootsAreNodes(ky, p);
    }
    assert Distinct(IdsF(kx)) && Distinct(IdsF(ky)) by {
      assert forall p | p in IdsF(kx) || p in IdsF(ky) :: p in IdsF(kx) + IdsF(ky);
    }
    assert forall p | p in IdsF(kx) || p in IdsF(ky) :: p in IdsF(kx) + IdsF(ky);
    Adoption(m, m', kx, x);
    Adoption(m, m', ky, y);
    HandedChanges(m, m', x, kx, y, ky);
  }

  lemma HandedChanges(m: Mem, m': Mem, x: Ptr, kx: seq<Tree>, y: Ptr, ky: seq<Tree>)
    requires Handed(m, m', x, kx, y, ky)
    ensures Changes(m, m', multiset{x} + multiset{y} + (IdsF(kx) + IdsF(ky)))
  {
    forall p | p in m && p !in multiset{x} + multiset{y} + (IdsF(kx) + IdsF(ky))
      ensures p in m' && m'[p] == m[p]
    {
      RootsAreNodes(kx, p);
      RootsAreNodes(ky, p);
    }
  }

  /** Redistribution keeps nodes, leaves and entries, in order. */
  lemma MovedParts(x: Tree, kx: seq<Tree>, y: Tree, ky: seq<Tree>)
    requires x.Inner? && y.Inner? && kx + ky == x.kids + y.kids
    ensures Ids(x) + Ids(y) == multiset{x.id} + multiset{y.id} + (IdsF(kx) + IdsF(ky))
    ensures Ids(Inner(x.id, kx)) + Ids(Inner(y.id, ky)) == Ids(x) + Ids(y)
    ensures LeavesF(kx) + LeavesF(ky) == Leaves(x) + Leaves(y)
    ensures EntriesF(kx) + EntriesF(ky) == Entries(x) + Entries(y)
  {
    ForestConcat(kx, ky);
    ForestConcat(x.kids, y.kids);
  }

  lemma MovedReps(m: Mem, x: Tree, kx: seq<Tree>, y: Tree, ky: seq<Tree>)
    requires Loose(m, x) && Loose(m, y) && kx + ky == x.kids + y.kids
    ensures Reps(m, kx) && Reps(m, ky)
  {
    var all := x.kids + y.kids;
    assert Reps(m, all);
    assert forall i | 0 <= i < |kx| :: kx[i] == all[i];
    assert forall i | 0 <= i < |ky| :: ky[i] == all[|kx| + i];
  }

  lemma MovedLoose(m: Mem, m': Mem, x: Tree, kx: seq<Tree>, y: Tree, ky: seq<Tree>)
    requires Loose(m, x) && Loose(m, y) && kx + ky == x.kids + y.kids && Ids(x) + Ids(y) <= multiset(m.Keys)
    requires Moved(m, m', x.id, kx, y.id, ky)
    ensures Loose(m', Inner(x.id, kx)) && Loose(m', Inner(y.id, ky))
    ensures Changes(m, m', Ids(x) + Ids(y))
    ensures forall p | p in m :: m'[p].next == m[p].next
  {
    hide Ids, IdsF, InnerIs;
    MovedParts(x, kx, y, ky);
    MovedReps(m, x, kx, y, ky);
    HandedAdopt(m, m', x.id, kx, y.id, ky);
  }

  /** `mv` moved from the end of `x` to the front of `y`. */
  lemma MovedRight(m: Mem, m': Mem, x: Tree, kx: seq<Tree>, y: Tree, ky: seq<Tree>, mv: seq<Tree>)
    requires Loose(m, x) && Loose(m, y) && x.kids == kx + mv && ky == mv + y.kids
    requires IdsF(x.kids) <= multiset(m.Keys) && Reparented(m, m', x.id, y.id, mv, y.id)
    ensures Handed(m, m', x.id, kx, y.id, ky)
  {
    ForestConcat(kx, mv);
    OwnsDistinct(m, IdsF(x.kids));
    forall p | p in m && p != x.id && p != y.id
      ensures p in m'
      ensures m'[p] ==
        if IsRoot(kx, p) then m[p].(parent := x.id) else if IsRoot(ky, p) then m[p].(parent := y.id) else m[p]
    {
      RootsAreNodes(kx, p);
      RootsAreNodes(mv, p);
      assert IdsF(x.kids)[p] == IdsF(kx)[p] + IdsF(mv)[p];
      RootsConcat(mv, y.kids, p);
      RootsConcat(kx, mv, p);
      RootParent(m, x, p);
      RootParent(m, y, p);
    }
  }

  /** `mv` moved from the front of `y` to the end of `x`. */
  lemma MovedLeft(m: Mem, m': Mem, x: Tree, kx: seq<Tree>, y: Tree, ky: seq<Tree>, mv: seq<Tree>)
    requires Loose(m, x) && Loose(m, y) && kx == x.kids + mv && y.kids == mv + ky
    requires IdsF(x.kids) + IdsF(y.kids) <= multiset(m.Keys) && Reparented(m, m', x.id, y.id, mv, x.id)
    ensures Handed(m, m', x.id, kx, y.id, ky)
  {
    ForestConcat(mv, ky);
    OwnsDistinct(m, IdsF(x.kids) + IdsF(y.kids));
    forall p | p in m && p != x.id && p != y.id
      ensures p in m'
      ensures m'[p] ==
        if IsRoot(kx, p) then m[p].(parent := x.id) else if IsRoot(ky, p) then m[p].(parent := y.id) else m[p]
    {
      RootsConcat(x.kids, mv, p);
      RootsConcat(mv, ky, p);
      RootParent(m, x, p);
      RootParent(m, y, p);
    }
  }

  lemma RootsConcat(a: seq<Tree>, b: seq<Tree>, p: Ptr)
    ensures IsRoot(a + b, p) <==> IsRoot(a, p) || IsRoot(b, p)
  {
    if i :| 0 <= i < |a + b| && (a + b)[i].id == p {
      assert if i < |a| then a[i].id == p else b[i - |a|].id == p;
    }
    if i :| 0 <= i < |a| && a[i].id == p {
      assert (a + b)[i].id == p;
    }
    if i :| 0 <= i < |b| && b[i].id == p {
      assert (a + b)[|a| + i].id == p;
    }
  }

  lemma RootParent(m: Mem, t: Tree, p: Ptr)
    requires Loose(m, t)
    ensures IsRoot(t.kids, p) ==> p in m && m[p].parent == t.id
  {
  }

  lemma MovedPair(m: Mem, m': Mem, c: Ctx, pid: Ptr, a: seq<Tree>, x: Tree, y: Tree, b: seq<Tree>, x': Tree, y': Tree)
    requires PairOpen(m, c, pid, a, x, y, b) && x.Inner? && y.Inner? && x'.Inner? && y'.Inner?
    requires x'.id == x.id && y'.id == y.id && x'.kids + y'.kids == x.kids + y.kids
    requires Moved(m, m', x.id, x'.kids, y.id, y'.kids)
    ensures Loose(m', x') && Loose(m', y')
    ensures Ids(x') <= multiset(m'.Keys) && Ids(y') <= multiset(m'.Keys)
    ensures Ids(y') + multiset{x.id} <= multiset(m'.Keys)
  {
    PairApart(m, c, pid, a, x, y, b);
    MovedParts(x, x'.kids, y, y'.kids);
    MovedLoose(m, m', x, x'.kids, y, y'.kids);
    assert multiset{x.id} <= Ids(x');
  }

  lemma MovedAll(m: Mem, m': Mem, x: Tree, y: Tree, x': Tree)
    requires Loose(m, x) && Loose(m, y) && Ids(x) + Ids(y) <= multiset(m.Keys)
    requires x' == Inner(x.id, x.kids + y.kids) && m'.Keys == m.Keys && InnerIs(m'[x.id], x'.kids)
    requires m'[x.id].next == m[x.id].next && m'[y.id] == m[y.id]
    requires Handed(m, m', x.id, x'.kids, y.id, [])
    ensures Loose(m', x') && Changes(m, m', Ids(x) + Ids(y)) && Ids(x') <= multiset(m.Keys)
    ensures forall p | p in m :: m'[p].next == m[p].next
    ensures x.id in Ids(x) + Ids(y)
  {
    MovedAllForest(m, m', x, y, x'.kids);
    HandedNext(m, m', x.id, x'.kids, y.id, []);
  }

  lemma HandedNext(m: Mem, m': Mem, x: Ptr, kx: seq<Tree>, y: Ptr, ky: seq<Tree>)
    requires Handed(m, m', x, kx, y, ky)
    ensures forall p | p in m && p != x && p != y :: m'[p].next == m[p].next
  {
  }

  lemma MovedAllForest(m: Mem, m': Mem, x: Tree, y: Tree, kx: seq<Tree>)
    requires Loose(m, x) && Loose(m, y) && Ids(x) + Ids(y) <= multiset(m.Keys) && kx == x.kids + y.kids
    requires Handed(m, m', x.id, kx, y.id, [])
    ensures RepF(m', kx, x.id) && Changes(m, m', Ids(x) + Ids(y))
    ensures multiset{x.id} + IdsF(kx) <= Ids(x) + Ids(y) && x.id in Ids(x) + Ids(y)
  {
    var d := multiset{x.id} + multiset{y.id} + (IdsF(kx) + IdsF([]));
    MovedParts(x, kx, y, []);
    assert d == Ids(x) + Ids(y);
    MovedReps(m, x, kx, y, []);
    HandedAdopt(m, m', x.id, kx, y.id, []);
    MergedIds(x.id, IdsF(kx), d, y.id);
  }

  lemma MergedIds(x: Ptr, k: multiset<Ptr>, d: multiset<Ptr>, y: Ptr)
    requires d == multiset{x} + multiset{y} + (k + multiset{})
    ensures multiset{x} + k <= d && x in d
  {
  }

  lemma MergeCells(m: Mem, m1: Mem, m2: Mem, d: multiset<Ptr>, x: Ptr, apart: multiset<Ptr>)
    requires m1.Keys == m.Keys && Changes(m, m1, d) && d + apart <= multiset(m.Keys) && x in d
    requires forall p | p in m :: m1[p].next == m[p].next
    requires KeysRewritten(m1, m2, x)
    ensures m2.Keys == m.Keys && Changes(m, m2, d) && Agrees(m, m2, apart)
    ensures forall p | p in m :: m2[p].next == m[p].next
  {
    AgreesApart(m, m2, apart, d);
  }

  /** The pair after the move and after both `fix_keys`. */
  lemma InnersBorrowed(m: Mem, m1: Mem, m2: Mem, m3: Mem, c: Ctx, pid: Ptr, a: seq<Tree>, x: Tree, y: Tree,
      b: seq<Tree>, kx: seq<Tree>, ky: seq<Tree>)
    requires PairOpen(m, c, pid, a, x, y, b) && x.Inner? && y.Inner? && kx + ky == x.kids + y.kids
    requires Moved(m, m1, x.id, kx, y.id, ky)
    requires KeysRewritten(m1, m2, x.id) && Rep(m2, Inner(x.id, kx))
    requires KeysRewritten(m2, m3, y.id) && Rep(m3, Inner(y.id, ky))
    ensures LooseInHole(m3, c, Inner(pid, Pair(a, Inner(x.id, kx), Inner(y.id, ky), b)))
  {
    var x', y' := Inner(x.id, kx), Inner(y.id, ky);
    PairApart(m, c, pid, a, x, y, b);
    MovedParts(x, kx, y, ky);
    MovedLoose(m, m1, x, kx, y, ky);
    BorrowedCells(m, m1, m2, m3, Ids(x) + Ids(y), x.id, y.id, x', Ids(y'));
    PairBorrowed(m, m3, c, pid, a, x, y, b, x', y');
  }

  lemma BorrowedCells(m: Mem, m1: Mem, m2: Mem, m3: Mem, d: multiset<Ptr>, x: Ptr, y: Ptr, x': Tree, iy: multiset<Ptr>)
    requires m1.Keys == m.Keys && Changes(m, m1, d) && d <= multiset(m.Keys) && x in d && y in d && x != y
    requires forall p | p in m :: m1[p].next == m[p].next
    requires KeysRewritten(m1, m2, x) && KeysRewritten(m2, m3, y)
    requires Rep(m2, x') && Ids(x') + iy == d && y in iy
    ensures m3.Keys == m.Keys && Changes(m, m3, d) && Rep(m3, x')
    ensures forall p | p in m :: m3[p].next == m[p].next && m3[p].parent == m1[p].parent
  {
    hide Rep, Ids;
    Within(Ids(x'), iy, y);
    KeysElsewhere(m2, m3, y, x');
  }

  lemma Within(ix: multiset<Ptr>, iy: multiset<Ptr>, y: Ptr)
    requires y in iy
    ensures ix + multiset{y} <= ix + iy
  {
  }

  /** The right node was merged into the left one, dropped from the parent and released.
      `m2` is the memory before the last two steps. */
  lemma InnersMerged(m: Mem, m2: Mem, m': Mem, c: Ctx, pid: Ptr, a: seq<Tree>, x: Tree, y: Tree, b: seq<Tree>, x': Tree)
    requires PairOpen(m, c, pid, a, x, y, b) && x.Inner? && y.Inner?
    requires x' == Inner(x.id, x.kids + y.kids) && Rep(m2, x') && m2[x.id].parent == pid
    requires m2.Keys == m.Keys && Changes(m, m2, Ids(x) + Ids(y)) && forall p | p in m :: m2[p].next == m[p].next
    requires pid in m2 && pid in m' && pid != y.id && m' == m2[pid := m'[pid]] - {y.id}
    requires InnerIs(m'[pid], a + [x'] + b) && m'[pid].parent == m2[pid].parent
    ensures LooseInHole(m', c, Inner(pid, a + [x'] + b))
  {
    InnersMergedLoose(m, m2, m', c, pid, a, x, y, b, x');
    InnersMergedOwned(m, m2, m', c, pid, a, x, y, b, x');
    InnersMergedChain(m, m2, m', c, pid, a, x, y, b, x');
  }

  lemma InnersMergedLoose(m: Mem, m2: Mem, m': Mem, c: Ctx, pid: Ptr, a: seq<Tree>, x: Tree, y: Tree, b: seq<Tree>,
      x': Tree)
    requires PairOpen(m, c, pid, a, x, y, b) && x.Inner? && y.Inner?
    requires x' == Inner(x.id, x.kids + y.kids) && Rep(m2, x') && m2[x.id].parent == pid
    requires m2.Keys == m.Keys && Changes(m, m2, Ids(x) + Ids(y)) && forall p | p in m :: m2[p].next == m[p].next
    requires pid in m2 && pid in m' && pid != y.id && m' == m2[pid := m'[pid]] - {y.id}
    requires InnerIs(m'[pid], a + [x'] + b) && m'[pid].parent == m2[pid].parent
    ensures RepCtx(m', c, Inner(pid, a + [x'] + b)) && Loose(m', Inner(pid, a + [x'] + b))
  {
    hide InnerIs, SepsOk, Rep, RepF, Changes, RepCtx, Owns, Chain;
    assert Ids(x') + multiset{y.id} == Ids(x) + Ids(y) by {
      MovedParts(x, x.kids + y.kids, y, []);
    }
    assert Rep(m', x') && m'[x.id].parent == pid && m'[pid].parent == m[pid].parent by {
      PairApart(m, c, pid, a, x, y, b);
      MergedRep(m, m2, m', pid, x, y, x');
    }
    assert Changes(m, m', Ids(x) + Ids(y) + multiset{pid}) by {
      assert y.id in Ids(y);
      WithoutCell(m, m2, m', Ids(x) + Ids(y), pid, y.id);
    }
    MergedLoose(m, m', c, pid, a, x, y, b, x', Inner(pid, a + [x'] + b));
  }

  lemma WithoutCell(m: Mem, m2: Mem, m': Mem, d: multiset<Ptr>, pid: Ptr, gone: Ptr)
    requires Changes(m, m2, d) && gone in d && m2.Keys == m.Keys
    requires pid in m' && m' == m2[pid := m'[pid]] - {gone}
    ensures Changes(m, m', d + multiset{pid})
  {
  }

  lemma InnersMergedOwned(m: Mem, m2: Mem, m': Mem, c: Ctx, pid: Ptr, a: seq<Tree>, x: Tree, y: Tree, b: seq<Tree>,
      x': Tree)
    requires PairOpen(m, c, pid, a, x, y, b) && x.Inner? && y.Inner? && x' == Inner(x.id, x.kids + y.kids)
    requires m2.Keys == m.Keys && pid in m2 && pid in m' && pid != y.id && m' == m2[pid := m'[pid]] - {y.id}
    ensures Owns(m', CtxIds(c) + Ids(Inner(pid, a + [x'] + b)))
  {
    MovedParts(x, x.kids + y.kids, y, []);
    assert m'.Keys == m.Keys - {y.id};
    MergedOwned(m, m', c, pid, a, x, y, b, x');
  }

  lemma MergedRep(m: Mem, m2: Mem, m': Mem, pid: Ptr, x: Tree, y: Tree, x': Tree)
    requires Ids(x) + Ids(y) + multiset{pid} <= multiset(m.Keys) && m2.Keys == m.Keys
    requires x'.id == x.id && Rep(m2, x') && m2[x.id].parent == pid && Ids(x') + multiset{y.id} == Ids(x) + Ids(y)
    requires Changes(m, m2, Ids(x) + Ids(y))
    requires pid in m2 && pid in m' && pid != y.id && m' == m2[pid := m'[pid]] - {y.id}
    requires m'[pid].parent == m2[pid].parent
    ensures Rep(m', x') && m'[x.id].parent == pid && m'[pid].parent == m[pid].parent
  {
    assert x'.id in Ids(x');
    hide Rep, Ids;
    SameCell(m, m2, Ids(x) + Ids(y), pid);
    assert Ids(x') + multiset{y.id} + multiset{pid} <= multiset(m2.Keys);
    DropAgrees(m2, m', Ids(x'), y.id, pid);
    RepAgrees(m2, m', x');
  }

  lemma SameCell(m: Mem, m': Mem, d: multiset<Ptr>, p: Ptr)
    requires d + multiset{p} <= multiset(m.Keys) && Changes(m, m', d)
    ensures p in m && p in m' && m'[p] == m[p]
  {
    AgreesApart(m, m', multiset{p}, d);
    assert p in multiset{p};
  }

  /** Nodes other than a released and a rewritten one stay as they are. */
  lemma DropAgrees(m: Mem, m': Mem, s: multiset<Ptr>, gone: Ptr, p: Ptr)
    requires s + multiset{gone} + multiset{p} <= multiset(m.Keys)
    requires p in m' && p != gone && m' == m[p := m'[p]] - {gone}
    ensures Agrees(m, m', s)
  {
    assert Changes(m, m', multiset{gone} + multiset{p});
    AgreesApart(m, m', s, multiset{gone} + multiset{p});
  }

  lemma InnersMergedChain(m: Mem, m2: Mem, m': Mem, c: Ctx, pid: Ptr, a: seq<Tree>, x: Tree, y: Tree, b: seq<Tree>,
      x': Tree)
    requires PairOpen(m, c, pid, a, x, y, b) && x.Inner? && y.Inner? && x' == Inner(x.id, x.kids + y.kids)
    requires m2.Keys == m.Keys && forall p | p in m :: m2[p].next == m[p].next
    requires pid in m2 && pid in m' && pid != y.id && m' == m2[pid := m'[pid]] - {y.id}
    ensures Chain(m', LeavesBefore(c) + Leaves(Inner(pid, a + [x'] + b)) + LeavesAfter(c))
  {
    var ls := (LeavesBefore(c) + LeavesF(a)) + (Leaves(x) + Leaves(y)) + (LeavesF(b) + LeavesAfter(c));
    assert Leaves(x') == Leaves(x) + Leaves(y) by {
      ForestConcat(x.kids, y.kids);
    }
    PairChainApart(m, c, pid, a, x, y, b, y.id);
    ParentNotInChain(m, c, pid, a, x, y, b);
    NotOwnLeaf(m, c, pid, a, x, y, b);
    if pid in Leaves(x) {
      LeavesAreNodes(x, pid);
    }
    if pid in Leaves(y) {
      LeavesAreNodes(y, pid);
    }
    ChainExcept2(m, m', ls, pid, y.id);
    MergedChain(m', c, pid, a, b, x');
  }

  lemma ChainExcept2(m: Mem, m': Mem, ls: seq<Ptr>, p: Ptr, p': Ptr)
    requires Chain(m, ls) && p !in ls && p' !in ls
    requires forall q | q in m && q != p && q != p' :: q in m' && m'[q].next == m[q].next
    ensures Chain(m', ls)
  {
    forall i | 0 <= i < |ls|
      ensures ls[i] in m' && m'[ls[i]].next == Following(ls, i)
    {
      assert ls[i] in ls;
    }
  }

  /** An inner node is not among the leaves of the pair. */
  lemma NotOwnLeaf(m: Mem, c: Ctx, pid: Ptr, a: seq<Tree>, x: Tree, y: Tree, b: seq<Tree>)
    requires PairOpen(m, c, pid, a, x, y, b) && x.Inner? && y.Inner?
    ensures y.id !in Leaves(x) + Leaves(y)
  {
    PairApart(m, c, pid, a, x, y, b);
    var d := Ids(x) + Ids(y);
    assert d <= multiset(m.Keys);
    OwnsDistinct(m, d);
    assert y.id in d && d[y.id] == Ids(x)[y.id] + 1 + IdsF(y.kids)[y.id];
    if y.id in Leaves(x) {
      LeavesAreNodes(x, y.id);
    }
    if y.id in LeavesF(y.kids) {
      LeavesAreNodesF(y.kids, y.id);
    }
  }

  // ----- the root gives up a level -----

  /** The tree `k` moved into the cell `root`. */
  ghost function Rehung(k: Tree, root: Ptr): Tree {
    match k
    case Leaf(_, es) => Leaf(root, es)
    case Inner(_, kids) => Inner(root, kids)
  }

  /** `root` had the only child `k`; it has taken over the fields and children of `k`. */
  lemma Collapsed(m: Mem, m1: Mem, m': Mem, root: Ptr, k: Tree)
    requires LooseInHole(m, Top, Inner(root, [k])) && k.id in m
    requires root in m1 && m1 == m[root := m[k.id].(parent := 0)]
    requires k.id != root && m'.Keys == m.Keys - {k.id}
    requires m'[root] == m1[root]
    requires forall p | p in m && p != root && p != k.id ::
      m'[p] == if k.Inner? && IsRoot(k.kids, p) then m[p].(parent := root) else m[p]
    ensures Built(m', Rehung(k, root))
  {
    assert Rep(m, [k][0]);
    ForestOne(k);
    var t' := Rehung(k, root);
    assert Owns(m, multiset{root} + Ids(k));
    OwnsDistinct(m, multiset{root} + Ids(k));
    CollapsedOwns(m, m', root, k);
    if k.Inner? {
      CollapsedKids(m, m', root, k);
    } else {
      assert [] + [k.id] + [] == [k.id];
      assert Following([k.id], 0) == 0 && [k.id][0] == k.id;
      assert Chain(m', [root]);
    }
  }

  lemma CollapsedOwns(m: Mem, m': Mem, root: Ptr, k: Tree)
    requires Owns(m, multiset{root} + Ids(k)) && m'.Keys == m.Keys - {k.id}
    ensures Owns(m', Ids(Rehung(k, root)))
  {
    assert multiset{root} + Ids(k) == Ids(Rehung(k, root)) + multiset{k.id};
    assert k.id in Ids(Rehung(k, root)) + multiset{k.id};
    assert m.Keys == m'.Keys + {k.id};
    assert multiset(m.Keys) == multiset(m'.Keys) + multiset{k.id};
    Cancel(multiset(m'.Keys), Ids(Rehung(k, root)), k.id);
  }

  /** The nodes below `k` are neither `k` nor `root`. */
  lemma BelowApart(m: Mem, root: Ptr, k: Tree)
    requires k.Inner? && Owns(m, multiset{root} + Ids(k))
    ensures forall p | p in IdsF(k.kids) :: p in m && p != root && p != k.id && IdsF(k.kids)[p] == 1
  {
    var d := multiset{root} + Ids(k);
    OwnsDistinct(m, d);
    forall p | p in IdsF(k.kids)
      ensures p in m && p != root && p != k.id && IdsF(k.kids)[p] == 1
    {
      assert p in d && d[p] == multiset{root}[p] + multiset{k.id}[p] + IdsF(k.kids)[p];
    }
  }

  lemma CollapsedKids(m: Mem, m': Mem, root: Ptr, k: Tree)
    requires k.Inner? && Rep(m, k) && Owns(m, multiset{root} + Ids(k)) && k.id != root && root != 0
    requires Chain(m, [] + LeavesF([k]) + []) && m'.Keys == m.Keys - {k.id}
    requires root in m' && m'[root] == m[k.id].(parent := 0)
    requires forall p | p in m && p != root && p != k.id ::
      m'[p] == if IsRoot(k.kids, p) then m[p].(parent := root) else m[p]
    ensures Rep(m', Inner(root, k.kids)) && Chain(m', LeavesF(k.kids))
  {
    hide Owns, Chain, Ids, IdsF, LeavesF;
    BelowApart(m, root, k);
    CollapsedRep(m, m', root, k);
    ForestOne(k);
    assert [] + LeavesF([k]) + [] == LeavesF(k.kids) by {
      LeavesOfInner(k);
    }
    forall p | p in LeavesF(k.kids)
      ensures p in m' && (p in m ==> m'[p].next == m[p].next)
    {
      LeavesAreNodesF(k.kids, p);
    }
    ChainFrame(m, m', LeavesF(k.kids));
  }

  lemma LeavesOfInner(k: Tree)
    requires k.Inner?
    ensures Leaves(k) == LeavesF(k.kids)
  {
  }

  lemma CollapsedRep(m: Mem, m': Mem, root: Ptr, k: Tree)
    requires k.Inner? && Rep(m, k) && root != 0
    requires forall p | p in IdsF(k.kids) :: p in m && p in m' && p != root && p != k.id && IdsF(k.kids)[p] == 1
    requires root in m' && m'[root] == m[k.id].(parent := 0) && m'.Keys == m.Keys - {k.id}
    requires forall p | p in m && p != root && p != k.id ::
      m'[p] == if IsRoot(k.kids, p) then m[p].(parent := root) else m[p]
    ensures Rep(m', Inner(root, k.kids))
  {
    assert Reps(m, k.kids);
    assert Adopted(m, m', k.kids, root);
    hide IdsF, IsRoot, Reps, Adopted;
    Adoption(m, m', k.kids, root);
  }

  lemma RehungParts(k: Tree, root: Ptr, h: nat)
    requires Shaped(k, h)
    ensures RootShaped(Rehung(k, root), h) && Entries(Rehung(k, root)) == Entries(k)
    ensures Rehung(k, root).id == root
  {
  }
}
