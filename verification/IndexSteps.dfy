/** What one step of an index operation does to memory and tree.

    Each lemma takes the memory before and after a few cells were written and shows which
    tree the new memory represents.  The methods of `NameIndex` do the writing. */
module IndexSteps {
  import opened BPlusTrees
  import opened NodeArena

  // ----- descending -----

  /** The position of `key`: everything before the hole is smaller, everything after is
      larger, and `key` is not below the subtree in the hole unless that is leftmost. */
  ghost predicate Around(c: Ctx, t: Tree, key: U64) {
    AllBelow(EntriesBefore(c), key) && AllAbove(EntriesAfter(c), key) &&
    (LeftEdge(c) || Min(t) <= key)
  }

  lemma {:induction false} ShapedMin(t: Tree, h: nat)
    requires Shaped(t, h)
    ensures Entries(t) != [] && Entries(t)[0].fnv == Min(t)
    decreases t
  {
    if t.Inner? {
      ShapedMin(t.kids[0], h - 1);
    }
  }

  ghost function CtxAt(c: Ctx, t: Tree, i: nat): Ctx
    requires t.Inner? && i < |t.kids|
  {
    Frame(c, t.id, t.kids[..i], t.kids[i + 1..])
  }

  lemma DescendRep(m: Mem, c: Ctx, t: Tree, i: nat)
    requires t.Inner? && i < |t.kids|
    requires RepCtx(m, c, t) && Rep(m, t)
    ensures Plug(CtxAt(c, t, i), t.kids[i]) == Plug(c, t)
    ensures RepCtx(m, CtxAt(c, t, i), t.kids[i]) && Rep(m, t.kids[i])
    ensures SepCtx(m, c, t) ==> SepCtx(m, CtxAt(c, t, i), t.kids[i])
  {
    assert t.kids[..i] + [t.kids[i]] + t.kids[i + 1..] == t.kids;
  }

  lemma DescendShape(c: Ctx, t: Tree, i: nat, h: nat)
    requires t.Inner? && i < |t.kids| && Shaped(t, h) && CtxShaped(c, h)
    ensures CtxShaped(CtxAt(c, t, i), h - 1) && Shaped(t.kids[i], h - 1)
  {
  }

  /** The children on either side of child `k`, when `key` belongs into `k`. */
  lemma SidesAround(l: seq<Tree>, k: Tree, r: seq<Tree>, h: nat, key: U64)
    requires Shaped(k, h) && ShapedF(r, h)
    requires Ascending(EntriesF(l) + Entries(k) + EntriesF(r))
    requires l != [] ==> Min(k) <= key
    requires r != [] ==> key < Min(r[0])
    ensures AllBelow(EntriesF(l), key) && AllAbove(EntriesF(r), key)
  {
    ShapedMin(k, h);
    if r != [] {
      ShapedMin(r[0], h);
      assert EntriesF(r)[0] == Entries(r[0])[0];
    }
    AscendingSides(EntriesF(l), Entries(k), EntriesF(r), key);
  }

  lemma AscendingSides(l: seq<Entry>, k: seq<Entry>, r: seq<Entry>, key: U64)
    requires Ascending(l + k + r) && k != []
    requires l != [] ==> k[0].fnv <= key
    requires r != [] ==> key < r[0].fnv
    ensures AllBelow(l, key) && AllAbove(r, key)
  {
    var all := l + k + r;
    forall i | 0 <= i < |l|
      ensures l[i].fnv < key
    {
      assert all[i] == l[i] && all[|l|] == k[0];
    }
    var n := |l| + |k|;
    forall i | 0 <= i < |r|
      ensures key < r[i].fnv
    {
      assert all[n + i] == r[i] && all[n] == r[0];
    }
  }

  /** Following the child chosen by `search_leaf` keeps `key` around the hole. */
  lemma DescendAround(c: Ctx, t: Tree, i: nat, h: nat, key: U64)
    requires t.Inner? && i < |t.kids| && Shaped(t, h)
    requires Ascending(Entries(Plug(c, t))) && Around(c, t, key)
    requires i > 0 ==> Min(t.kids[i]) <= key
    requires i + 1 < |t.kids| ==> key < Min(t.kids[i + 1])
    ensures Around(CtxAt(c, t, i), t.kids[i], key)
  {
    var l, k, r := t.kids[..i], t.kids[i], t.kids[i + 1..];
    assert t.kids == l + [k] + r;
    KidsAscending(c, t, l, k, r);
    assert Shaped(k, h - 1) && ShapedF(r, h - 1) by { }
    assert AllBelow(EntriesF(l), key) && AllAbove(EntriesF(r), key) by {
      SidesAround(l, k, r, h - 1, key);
    }
    AroundConcat(EntriesBefore(c), EntriesF(l), EntriesF(r), EntriesAfter(c), key);
  }

  /** The search has come to the subtree `t`, of height `h`, in the hole `c` of the tree `all`. */
  ghost predicate Descending(m: Mem, all: Tree, height: nat, c: Ctx, t: Tree, h: nat, key: U64) {
    Rep(m, t) && RepCtx(m, c, t) && SepCtx(m, c, t) && Plug(c, t) == all && Around(c, t, key) &&
    CtxShaped(c, h) && CtxDepth(c) + h == height && (if c.Top? then RootShaped(t, h) else Shaped(t, h)) &&
    NodesNeeded(all, key) == NewNodes(t, key, Spill(c))
  }

  /** The nodes created by putting one more entry into the leaf in the hole. */
  ghost function NodesForLeaf(c: Ctx, es: seq<Entry>): nat {
    if |es| < 3 then 0 else 1 + Spill(c)
  }

  lemma DescentStarts(m: Mem, all: Tree, height: nat, key: U64)
    requires Built(m, all) && RootShaped(all, height)
    ensures Descending(m, all, height, Top, all, height, key) && all.id in m
  {
  }

  lemma DescentEnds(m: Mem, all: Tree, height: nat, c: Ctx, leaf: Ptr, es: seq<Entry>, h: nat, key: U64)
    requires Built(m, all) && Descending(m, all, height, c, Leaf(leaf, es), h, key)
    ensures InHole(m, c, Leaf(leaf, es)) && Plug(c, Leaf(leaf, es)) == all && Around(c, Leaf(leaf, es), key)
    ensures CtxShaped(c, 0) && |es| <= 3 && (c.Frame? ==> |es| >= 2) && CtxDepth(c) == height
    ensures NodesNeeded(all, key) == NodesForLeaf(c, es)
  {
    PlugParts(c, Leaf(leaf, es));
  }

  lemma DescentNode(m: Mem, all: Tree, height: nat, c: Ctx, t: Tree, h: nat, key: U64)
    requires Descending(m, all, height, c, t, h, key)
    ensures t.id in m && Rep(m, t) && (t.Inner? <==> !m[t.id].leaf) && (t.Inner? ==> h > 0 && InnerIs(m[t.id], t.kids))
  {
  }

  lemma DescentNext(m: Mem, all: Tree, height: nat, c: Ctx, t: Tree, h: nat, key: U64, i: nat)
    requires Descending(m, all, height, c, t, h, key) && t.Inner? && i < |t.kids| && h > 0
    requires Ascending(Entries(all))
    requires i > 0 ==> Min(t.kids[i]) <= key
    requires i + 1 < |t.kids| ==> key < Min(t.kids[i + 1])
    requires i == Towards(t.kids, key)
    ensures Descending(m, all, height, CtxAt(c, t, i), t.kids[i], h - 1, key)
  {
    hide Rep, SepCtx, Plug, Around, Entries;
    DescendRep(m, c, t, i);
    DescendShape(c, t, i, h);
    DescendAround(c, t, i, h, key);
  }

  lemma KidsAscending(c: Ctx, t: Tree, l: seq<Tree>, k: Tree, r: seq<Tree>)
    requires t.Inner? && t.kids == l + [k] + r && Ascending(Entries(Plug(c, t)))
    ensures Ascending(EntriesF(l) + Entries(k) + EntriesF(r))
  {
    PlugParts(c, t);
    AscendingMid(EntriesBefore(c), Entries(t), EntriesAfter(c));
    ForestSplit(l, k, r);
  }

  lemma AroundConcat(a: seq<Entry>, l: seq<Entry>, r: seq<Entry>, b: seq<Entry>, key: U64)
    requires AllBelow(a, key) && AllBelow(l, key) && AllAbove(r, key) && AllAbove(b, key)
    ensures AllBelow(a + l, key) && AllAbove(r + b, key)
  {
  }

  lemma AscendingMid(a: seq<Entry>, b: seq<Entry>, c: seq<Entry>)
    requires Ascending(a + b + c)
    ensures Ascending(b)
  {
    forall i, j | 0 <= i < j < |b|
      ensures b[i].fnv < b[j].fnv
    {
      assert (a + b + c)[|a| + i] == b[i] && (a + b + c)[|a| + j] == b[j];
    }
  }

  // ----- writing an inner node -----

  /** `put_inner`: the node `id` gets these keys and children, every child gets `id` as its
      parent, and nothing else changes. */
  ghost predicate InnerWritten(m: Mem, m': Mem, id: Ptr, keys: seq<U64>, kids: seq<Tree>) {
    m'.Keys == m.Keys && id in m && InnerIs(m'[id], kids) && |keys| == |kids| - 1 <= 3 &&
    (forall i | 0 <= i < |keys| :: m'[id].fnv[i] == keys[i]) &&
    m'[id].parent == m[id].parent &&
    forall p | p in m && p != id :: m'[p] == if IsRoot(kids, p) then m[p].(parent := id) else m[p]
  }

  ghost predicate KeysFor(keys: seq<U64>, kids: seq<Tree>) {
    |keys| == |kids| - 1 && forall i | 0 <= i < |keys| :: keys[i] == Min(kids[i + 1])
  }

  lemma WrittenRep(m: Mem, m': Mem, id: Ptr, keys: seq<U64>, kids: seq<Tree>)
    requires InnerWritten(m, m', id, keys, kids) && KeysFor(keys, kids) && id != 0
    requires Reps(m, kids)
    requires multiset{id} + IdsF(kids) <= multiset(m.Keys)
    ensures Rep(m', Inner(id, kids))
    ensures Changes(m, m', multiset{id} + IdsF(kids))
  {
    var ids := multiset{id} + IdsF(kids);
    OwnsDistinct(m, ids);
    assert ids[id] == 1 + IdsF(kids)[id];
    assert Distinct(IdsF(kids)) by {
      forall p | p in IdsF(kids)
        ensures IdsF(kids)[p] == 1
      {
        assert p in ids;
      }
    }
    forall p | p in IdsF(kids)
      ensures p in m && p in m' && m'[p] == if IsRoot(kids, p) then m[p].(parent := id) else m[p]
    {
      assert p in ids && p != id;
    }
    Adoption(m, m', kids, id);
    WrittenChanges(m, m', id, keys, kids);
  }

  lemma WrittenChanges(m: Mem, m': Mem, id: Ptr, keys: seq<U64>, kids: seq<Tree>)
    requires InnerWritten(m, m', id, keys, kids)
    ensures Changes(m, m', multiset{id} + IdsF(kids))
  {
    forall p | p in m && p !in multiset{id} + IdsF(kids)
      ensures p in m' && m'[p] == m[p]
    {
      if IsRoot(kids, p) {
        var i :| 0 <= i < |kids| && kids[i].id == p;
        IdsAt(kids, i);
      }
    }
  }

  // ----- a context, a forest waiting to be assembled, and loose nodes -----

  /** The hole of `c`, into which `told` fits, has been opened: its former content is the
      forest `ts` together with the nodes `rest`. */
  ghost predicate Parts(m: Mem, c: Ctx, told: Tree, ts: seq<Tree>, rest: multiset<Ptr>) {
    RepCtx(m, c, told) && Reps(m, ts) &&
    Owns(m, CtxIds(c) + rest + IdsF(ts)) &&
    Chain(m, LeavesBefore(c) + LeavesF(ts) + LeavesAfter(c))
  }

  lemma PartsFresh(m: Mem, m': Mem, c: Ctx, told: Tree, ts: seq<Tree>, rest: multiset<Ptr>, q: Ptr)
    requires Parts(m, c, told, ts, rest)
    requires q !in m && m'.Keys == m.Keys + {q} && Changes(m, m', multiset{})
    ensures Parts(m', c, told, ts, rest + multiset{q})
    ensures SepCtx(m, c, told) ==> SepCtx(m', c, told)
  {
    hide RepCtx, SepCtx, Rep, IdsF, CtxIds, LeavesF, LeavesBefore, LeavesAfter;
    FitsHole(m, c, told);
    CtxKeep(m, m', c, told, told, multiset{});
    AgreesApart(m, m', IdsF(ts), multiset{});
    ForestAgrees(m, m', ts);
    assert multiset(m'.Keys) == multiset(m.Keys) + multiset{q};
    ChainFrame(m, m', LeavesBefore(c) + LeavesF(ts) + LeavesAfter(c));
  }

  /** Chains only depend on the `next` links of nodes that are kept. */
  lemma PartsChain(m: Mem, m': Mem, c: Ctx, ts: seq<Tree>, d: multiset<Ptr>)
    requires Chain(m, LeavesBefore(c) + LeavesF(ts) + LeavesAfter(c))
    requires CtxIds(c) + d + IdsF(ts) <= multiset(m.Keys)
    requires forall p | p in m && p !in d :: p in m' && m'[p].next == m[p].next
    ensures Chain(m', LeavesBefore(c) + LeavesF(ts) + LeavesAfter(c))
  {
    var all := CtxIds(c) + d + IdsF(ts);
    OwnsDistinct(m, all);
    var ls := LeavesBefore(c) + LeavesF(ts) + LeavesAfter(c);
    forall p | p in ls
      ensures p in m' && (p in m ==> m'[p].next == m[p].next)
    {
      if p in LeavesF(ts) {
        LeavesAreNodesF(ts, p);
      } else {
        CtxLeavesAreNodes(c, p);
      }
      assert p in all;
      assert all[p] == CtxIds(c)[p] + d[p] + IdsF(ts)[p];
    }
    ChainFrame(m, m', ls);
  }

  /** `put_inner` turns the loose node `p` and the middle of the forest into one tree. */
  lemma PartsPut(m: Mem, m': Mem, c: Ctx, told: Tree, a: seq<Tree>, s: seq<Tree>, b: seq<Tree>,
                 rest: multiset<Ptr>, p: Ptr, keys: seq<U64>)
    requires Parts(m, c, told, a + s + b, rest + multiset{p}) && p != 0
    requires InnerWritten(m, m', p, keys, s) && KeysFor(keys, s) && told.id !in IdsF(s)
    ensures Parts(m', c, told, a + [Inner(p, s)] + b, rest)
    ensures SepCtx(m, c, told) ==> SepCtx(m', c, told)
  {
    hide RepCtx, SepCtx, Rep, Reps, Chain, InnerWritten, KeysFor, Owns, Changes, IdsF, LeavesF, CtxIds;
    var d := multiset{p} + IdsF(s);
    PutIds(a, s, b, p);
    PutOwned(m, CtxIds(c), rest, multiset{p}, IdsF(a), IdsF(s), IdsF(b));
    WrittenLinks(m, m', p, keys, s);
    PartsPutReps(m, m', a, s, b, p, keys);
    FitsHole(m, c, told);
    CtxKeep(m, m', c, told, told, d);
    PartsChain(m, m', c, a + s + b, multiset{p});
    assert m'.Keys == m.Keys;
    SameOwned(m, m', CtxIds(c) + rest + (IdsF(a) + (multiset{p} + IdsF(s)) + IdsF(b)));
  }

  lemma PutOwned(m: Mem, c: multiset<Ptr>, rest: multiset<Ptr>, p: multiset<Ptr>,
                 a: multiset<Ptr>, s: multiset<Ptr>, b: multiset<Ptr>)
    requires Owns(m, c + (rest + p) + (a + s + b))
    ensures Owns(m, c + rest + (a + (p + s) + b))
    ensures a + (p + s) + b <= multiset(m.Keys) && c + (p + s) <= multiset(m.Keys)
    ensures c + p + (a + s + b) <= multiset(m.Keys)
  {
  }

  lemma SameOwned(m: Mem, m': Mem, ids: multiset<Ptr>)
    requires Owns(m, ids) && m'.Keys == m.Keys
    ensures Owns(m', ids)
  {
  }

  lemma FitsHole(m: Mem, c: Ctx, t: Tree)
    requires RepCtx(m, c, t)
    ensures t.id in m
  {
  }

  /** `PartsPut` with the forests named as the caller sees them. */
  lemma PartsPutAs(m: Mem, m': Mem, c: Ctx, told: Tree, ts: seq<Tree>, a: seq<Tree>, s: seq<Tree>, b: seq<Tree>,
                   ts': seq<Tree>, rest: multiset<Ptr>, rest': multiset<Ptr>, p: Ptr, keys: seq<U64>)
    requires Parts(m, c, told, ts, rest) && ts == a + s + b && ts' == a + [Inner(p, s)] + b
    requires rest == rest' + multiset{p} && p != 0
    requires InnerWritten(m, m', p, keys, s) && KeysFor(keys, s) && told.id !in IdsF(s)
    ensures Parts(m', c, told, ts', rest')
    ensures SepCtx(m, c, told) ==> SepCtx(m', c, told)
  {
    PartsPut(m, m', c, told, a, s, b, rest', p, keys);
  }

  /** The trees of the forest are cells other than the loose nodes and the context. */
  lemma PartsCells(m: Mem, c: Ctx, told: Tree, ts: seq<Tree>, rest: multiset<Ptr>, p: Ptr)
    requires Parts(m, c, told, ts, rest) && p in rest
    ensures p in m && p !in IdsF(ts) && p !in CtxIds(c)
    ensures forall i | 0 <= i < |ts| :: ts[i].id in m && ts[i].id != p
  {
    var all := CtxIds(c) + rest + IdsF(ts);
    OwnsDistinct(m, all);
    assert p in all && all[p] == CtxIds(c)[p] + rest[p] + IdsF(ts)[p];
    forall i | 0 <= i < |ts|
      ensures ts[i].id in m && ts[i].id != p
    {
      IdsAt(ts, i);
      assert ts[i].id in all;
    }
  }

  /** The node that fits the hole is loose, or the root of a tree before the stretch `s`. */
  lemma PartsToldApart(m: Mem, c: Ctx, told: Tree, a: seq<Tree>, s: seq<Tree>, b: seq<Tree>, rest: multiset<Ptr>)
    requires Parts(m, c, told, a + s + b, rest) && (told.id in rest || IsRoot(a, told.id))
    ensures told.id !in IdsF(s)
  {
    assert IdsF(a + s + b) == IdsF(a) + IdsF(s) + IdsF(b) by {
      ForestConcat(a + s, b);
      ForestConcat(a, s);
    }
    RootsAreNodes(a, told.id);
    var all := CtxIds(c) + rest + IdsF(a + s + b);
    OwnsDistinct(m, all);
    assert all[told.id] == CtxIds(c)[told.id] + rest[told.id] + IdsF(a)[told.id] + IdsF(s)[told.id] + IdsF(b)[told.id];
    assert told.id in all;
  }

  /** The parent link of the last tree is not constrained. */
  lemma PartsReparent(m: Mem, m': Mem, c: Ctx, told: Tree, t1: Tree, t2: Tree)
    requires Parts(m, c, told, [t1, t2], multiset{}) && t1.id == told.id
    requires t2.id in m && t2.id in m' && m' == m[t2.id := m'[t2.id]]
    requires m'[t2.id] == m[t2.id].(parent := m'[t2.id].parent)
    ensures Parts(m', c, told, [t1, t2], multiset{})
    ensures SepCtx(m, c, told) ==> SepCtx(m', c, told)
  {
    hide Rep, RepCtx, SepCtx, Owns, Ids, IdsF, CtxIds, LeavesF, LeavesBefore, LeavesAfter;
    var ts := [t1, t2];
    assert m'.Keys == m.Keys;
    PairOwned(m, CtxIds(c), t1, t2);
    assert Rep(m, ts[0]) && Rep(m, ts[1]);
    FitsHole(m, c, told);
    ReparentRep(m, m', t1, t2);
    CtxKeep(m, m', c, told, told, multiset{t2.id});
    ChainFrame(m, m', LeavesBefore(c) + LeavesF(ts) + LeavesAfter(c));
    SameOwned(m, m', CtxIds(c) + multiset{} + IdsF(ts));
  }

  lemma PairOwned(m: Mem, up: multiset<Ptr>, t1: Tree, t2: Tree)
    requires Owns(m, up + multiset{} + IdsF([t1, t2]))
    ensures up + multiset{t2.id} <= multiset(m.Keys) && Ids(t1) + Ids(t2) <= multiset(m.Keys)
    ensures t1.id in m && t2.id in m && t1.id != t2.id
  {
    ForestTwo(t1, t2);
    var d := Ids(t1) + Ids(t2);
    assert t1.id in Ids(t1) && t2.id in Ids(t2) && multiset{t2.id} <= Ids(t2);
    OwnsDistinct(m, up + d);
    assert (up + d)[t1.id] == up[t1.id] + Ids(t1)[t1.id] + Ids(t2)[t1.id];
    assert t1.id in up + d && t2.id in up + d;
  }

  lemma ReparentRep(m: Mem, m': Mem, t1: Tree, t2: Tree)
    requires Rep(m, t1) && Rep(m, t2) && Ids(t1) + Ids(t2) <= multiset(m.Keys)
    requires t2.id in m' && m' == m[t2.id := m'[t2.id]] && m'[t2.id] == m[t2.id].(parent := m'[t2.id].parent)
    ensures Rep(m', t1) && Rep(m', t2)
  {
    AgreesApart(m, m', Ids(t1), multiset{t2.id});
    RepAgrees(m, m', t1);
    if t2.Inner? {
      AgreesApart(m, m', IdsF(t2.kids), multiset{t2.id});
    }
    RepFrame(m, m', t2);
  }

  lemma WrittenLinks(m: Mem, m': Mem, id: Ptr, keys: seq<U64>, kids: seq<Tree>)
    requires InnerWritten(m, m', id, keys, kids)
    ensures m'.Keys == m.Keys
    ensures forall p | p in m && p != id :: m'[p].next == m[p].next
    ensures forall p | p in m && p !in IdsF(kids) :: m'[p].parent == m[p].parent
  {
    forall p | p in m && p !in IdsF(kids)
      ensures m'[p].parent == m[p].parent
    {
      RootsAreNodes(kids, p);
    }
  }

  lemma RootsAreNodes(ts: seq<Tree>, p: Ptr)
    ensures IsRoot(ts, p) ==> p in IdsF(ts)
  {
    if i :| 0 <= i < |ts| && ts[i].id == p {
      IdsAt(ts, i);
    }
  }

  lemma PutIds(a: seq<Tree>, s: seq<Tree>, b: seq<Tree>, p: Ptr)
    ensures IdsF(a + s + b) == IdsF(a) + IdsF(s) + IdsF(b)
    ensures IdsF(a + [Inner(p, s)] + b) == IdsF(a) + (multiset{p} + IdsF(s)) + IdsF(b)
    ensures LeavesF(a + [Inner(p, s)] + b) == LeavesF(a + s + b)
    ensures EntriesF(a + [Inner(p, s)] + b) == EntriesF(a + s + b)
  {
    ForestConcat(a + s, b);
    ForestConcat(a, s);
    ForestSplit(a, Inner(p, s), b);
  }

  lemma PartsPutReps(m: Mem, m': Mem, a: seq<Tree>, s: seq<Tree>, b: seq<Tree>, p: Ptr, keys: seq<U64>)
    requires Reps(m, a + s + b)
    requires InnerWritten(m, m', p, keys, s) && KeysFor(keys, s) && p != 0
    requires IdsF(a) + (multiset{p} + IdsF(s)) + IdsF(b) <= multiset(m.Keys)
    ensures Reps(m', a + [Inner(p, s)] + b)
    ensures Changes(m, m', multiset{p} + IdsF(s))
  {
    RepsParts(m, a, s, b);
    WrittenRep(m, m', p, keys, s);
    PartsPutForest(m, m', a, s, Inner(p, s), b, multiset{p} + IdsF(s));
  }

  lemma PartsPutForest(m: Mem, m': Mem, a: seq<Tree>, s: seq<Tree>, t: Tree, b: seq<Tree>, d: multiset<Ptr>)
    requires Reps(m, a + s + b)
    requires Rep(m', t) && Changes(m, m', d)
    requires IdsF(a) + d + IdsF(b) <= multiset(m.Keys)
    ensures Reps(m', a + [t] + b)
  {
    RepsParts(m, a, s, b);
    AgreesApart(m, m', IdsF(a) + IdsF(b), d);
    assert Agrees(m, m', IdsF(a)) && Agrees(m, m', IdsF(b));
    ForestAgrees(m, m', a);
    ForestAgrees(m, m', b);
    RepsConcat(m', a, [t], b);
  }

  lemma RepsParts(m: Mem, a: seq<Tree>, s: seq<Tree>, b: seq<Tree>)
    requires Reps(m, a + s + b)
    ensures Reps(m, a) && Reps(m, s) && Reps(m, b)
  {
    var all := a + s + b;
    assert forall i | 0 <= i < |a| :: a[i] == all[i];
    assert forall i | 0 <= i < |s| :: s[i] == all[|a| + i];
    assert forall i | 0 <= i < |b| :: b[i] == all[|a| + |s| + i];
  }

  lemma RepsConcat(m: Mem, a: seq<Tree>, s: seq<Tree>, b: seq<Tree>)
    requires Reps(m, a) && Reps(m, s) && Reps(m, b)
    ensures Reps(m, a + s + b)
  {
  }

  /** One tree left and no loose nodes: the hole is filled again. */
  lemma PartsClose(m: Mem, c: Ctx, told: Tree, t: Tree)
    requires Parts(m, c, told, [t], multiset{}) && t.id == told.id
    requires SepCtx(m, c, told) && (Min(t) == Min(told) || LeftEdge(c))
    ensures InHole(m, c, t)
  {
    ForestOne(t);
    assert Rep(m, [t][0]);
    CtxKeep(m, m, c, told, t, multiset{});
  }

  /** Two trees left and no loose nodes: the hole holds a split node. */
  lemma PartsCloseSplit(m: Mem, c: Ctx, told: Tree, t1: Tree, t2: Tree)
    requires Parts(m, c, told, [t1, t2], multiset{}) && t1.id == told.id && c.Frame?
    requires SepCtx(m, c, told) && Min(t1) == Min(told)
    ensures SplitInHole(m, c, t1, t2)
  {
    assert LeavesF([t1, t2]) == Leaves(t1) + Leaves(t2) && IdsF([t1, t2]) == Ids(t1) + Ids(t2) by {
      ForestTwo(t1, t2);
    }
    assert Rep(m, [t1, t2][0]) && Rep(m, [t1, t2][1]);
    CtxKeep(m, m, c, told, t1, multiset{});
  }

  // ----- inserting into a leaf -----

  /** Only the leaf `id` was rewritten, and its neighbours cannot tell. */
  ghost predicate LeafRewritten(m: Mem, m': Mem, id: Ptr, es': seq<Entry>) {
    id in m && id in m' && m' == m[id := m'[id]] &&
    m'[id].parent == m[id].parent && m'[id].next == m[id].next && LeafIs(m'[id], es')
  }

  lemma LeafReplaced(m: Mem, m': Mem, c: Ctx, id: Ptr, es: seq<Entry>, es': seq<Entry>)
    requires InHole(m, c, Leaf(id, es)) && LeafRewritten(m, m', id, es')
    requires Min(Leaf(id, es')) == Min(Leaf(id, es)) || LeftEdge(c)
    ensures InHole(m', c, Leaf(id, es'))
  {
    CtxKeep(m, m', c, Leaf(id, es), Leaf(id, es'), multiset{id});
    assert m'.Keys == m.Keys;
    ChainFrame(m, m', LeavesBefore(c) + [id] + LeavesAfter(c));
  }

  /** The leaf `id` keeps `es1`; the fresh leaf `id2` takes `es2` and follows it in the chain. */
  lemma LeafSplit(m: Mem, m': Mem, c: Ctx, id: Ptr, es: seq<Entry>, es1: seq<Entry>, id2: Ptr, es2: seq<Entry>)
    requires InHole(m, c, Leaf(id, es)) && c.Frame? && id2 !in m && id2 != 0
    requires m'.Keys == m.Keys + {id2} && Changes(m, m', multiset{id})
    requires LeafIs(m'[id], es1) && m'[id].parent == m[id].parent && m'[id].next == id2
    requires LeafIs(m'[id2], es2) && m'[id2].next == m[id].next
    requires Min(Leaf(id, es1)) == Min(Leaf(id, es)) || LeftEdge(c)
    ensures SplitInHole(m', c, Leaf(id, es1), Leaf(id2, es2))
  {
    var t, t1 := Leaf(id, es), Leaf(id, es1);
    assert RepCtx(m', c, t1) && SepCtx(m', c, t1) by {
      CtxKeep(m, m', c, t, t1, multiset{id});
    }
    assert Owns(m', CtxIds(c) + multiset{id} + multiset{id2}) by {
      assert multiset(m'.Keys) == multiset(m.Keys) + multiset{id2};
    }
    LeafSplitChain(m, m', c, id, id2);
  }

  lemma LeafSplitChain(m: Mem, m': Mem, c: Ctx, id: Ptr, id2: Ptr)
    requires Owns(m, CtxIds(c) + multiset{id}) && Owns(m', CtxIds(c) + multiset{id} + multiset{id2})
    requires Chain(m, LeavesBefore(c) + [id] + LeavesAfter(c))
    requires Changes(m, m', multiset{id})
    requires id in m && id2 !in m && id in m' && id2 in m' && m'[id].next == id2 && m'[id2].next == m[id].next
    ensures Chain(m', LeavesBefore(c) + ([id] + [id2]) + LeavesAfter(c))
  {
    HoleApart(m, c, multiset{id}, id);
    HoleApart(m', c, multiset{id2}, id2);
    ChainInsert(m, m', LeavesBefore(c), id, id2, LeavesAfter(c));
  }

  /** A root leaf whose entries have moved to two fresh leaves; the root itself is loose. */
  lemma RootLeafOpened(m: Mem, m': Mem, root: Ptr, es: seq<Entry>, a: Ptr, es1: seq<Entry>, b: Ptr, es2: seq<Entry>)
    requires InHole(m, Top, Leaf(root, es))
    requires a != 0 && b != 0 && a != b && a !in m && b !in m && m'.Keys == m.Keys + {a, b}
    requires m'[root] == m[root]
    requires LeafIs(m'[a], es1) && m'[a].next == b && LeafIs(m'[b], es2) && m'[b].next == 0
    ensures Parts(m', Top, Leaf(root, es), [Leaf(a, es1), Leaf(b, es2)], multiset{root})
  {
    var ta, tb := Leaf(a, es1), Leaf(b, es2);
    assert LeavesF([ta, tb]) == [a, b] && IdsF([ta, tb]) == multiset{a} + multiset{b} by {
      ForestTwo(ta, tb);
    }
    assert multiset(m'.Keys) == multiset(m.Keys) + multiset{a} + multiset{b};
    assert [] + [a, b] + [] == [a, b];
  }

  // ----- linking a new right half into the parent -----

  ghost function OpenedKids(c: Ctx, tl: Tree, tr: Tree): seq<Tree>
    requires c.Frame?
  {
    c.left + [tl, tr] + c.right
  }

  lemma OpenedMin(c: Ctx, tl: Tree, tr: Tree)
    requires c.Frame?
    ensures OpenedKids(c, tl, tr) != [] && (c.left + [tl] + c.right) != []
    ensures OpenedKids(c, tl, tr)[0] == (c.left + [tl] + c.right)[0]
  {
  }

  /** The keys of the parent with the new separator put in are the minima of its children. */
  lemma OpenedKeys(n: Node, c: Ctx, tl: Tree, tr: Tree, keys: seq<U64>)
    requires c.Frame? && InnerIs(n, c.left + [tl] + c.right) && SepsOk(n, c.left + [tl] + c.right)
    requires keys == n.fnv[..|c.left|] + [Min(tr)] + n.fnv[|c.left|..n.dataNum]
    ensures KeysFor(keys, OpenedKids(c, tl, tr))
  {
    var k, k' := c.left + [tl] + c.right, OpenedKids(c, tl, tr);
    forall i | 0 <= i < |keys|
      ensures keys[i] == Min(k'[i + 1])
    {
      if i < |c.left| {
        assert n.fnv[i] == Min(k[i + 1]);
        assert k'[i + 1] == k[i + 1];
      } else if i == |c.left| {
        assert k'[i + 1] == tr;
      } else {
        var j := i - 1;
        assert keys[i] == n.fnv[|c.left|..n.dataNum][j - |c.left|] == n.fnv[j];
        assert n.fnv[j] == Min(k[j + 1]);
        assert k'[i + 1] == k[i] == c.right[i - |c.left| - 1];
      }
    }
  }

  /** Opening the parent of a split node. */
  lemma Opened(m: Mem, c: Ctx, tl: Tree, tr: Tree)
    requires SplitInHole(m, c, tl, tr)
    ensures Parts(m, c.up, Inner(c.id, c.left + [tl] + c.right), OpenedKids(c, tl, tr), multiset{c.id})
    ensures SepCtx(m, c.up, Inner(c.id, c.left + [tl] + c.right))
  {
    var kids := OpenedKids(c, tl, tr);
    assert LeavesF(kids) == LeavesF(c.left) + (Leaves(tl) + Leaves(tr)) + LeavesF(c.right)
      && IdsF(kids) == IdsF(c.left) + (Ids(tl) + Ids(tr)) + IdsF(c.right) by {
      ForestSplit2(c.left, tl, tr, c.right);
    }
    assert LeavesBefore(c) + (Leaves(tl) + Leaves(tr)) + LeavesAfter(c)
        == LeavesBefore(c.up) + LeavesF(kids) + LeavesAfter(c.up) by {
      Regroup(LeavesBefore(c.up), LeavesF(c.left), Leaves(tl) + Leaves(tr), LeavesF(c.right), LeavesAfter(c.up));
    }
    OpenedReps(m, c, tl, tr);
  }

  lemma OpenedReps(m: Mem, c: Ctx, tl: Tree, tr: Tree)
    requires c.Frame? && Rep(m, tl) && Rep(m, tr) && RepF(m, c.left, c.id) && RepF(m, c.right, c.id)
    ensures Reps(m, OpenedKids(c, tl, tr))
  {
    RepsConcat(m, c.left, [tl, tr], c.right);
  }

  lemma OpenedEntries(c: Ctx, tl: Tree, tr: Tree)
    requires c.Frame?
    ensures EntriesBefore(c) + (Entries(tl) + Entries(tr)) + EntriesAfter(c)
         == EntriesBefore(c.up) + EntriesF(OpenedKids(c, tl, tr)) + EntriesAfter(c.up)
  {
    ForestSplit2(c.left, tl, tr, c.right);
    Regroup(EntriesBefore(c.up), EntriesF(c.left), Entries(tl) + Entries(tr), EntriesF(c.right), EntriesAfter(c.up));
  }

  /** The outermost node of a context is the root. */
  lemma {:induction false} OutermostId(c: Ctx, t: Tree)
    ensures if c.Top? then Plug(c, t).id == t.id else Plug(c, t).id in CtxIds(c)
    decreases c
  {
    if c.Frame? {
      OutermostId(c.up, Inner(c.id, c.left + [t] + c.right));
    }
  }

  lemma {:induction false} OutermostSame(c: Ctx, t: Tree, t': Tree)
    requires t.id == t'.id
    ensures Plug(c, t).id == Plug(c, t').id
    decreases c
  {
    if c.Frame? {
      OutermostSame(c.up, Inner(c.id, c.left + [t] + c.right), Inner(c.id, c.left + [t'] + c.right));
    }
  }
}
