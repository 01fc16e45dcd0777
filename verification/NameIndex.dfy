/** The name index of the file manager: an in-place B+ tree over a node arena. */
module NameIndexing {
  import opened BPlusTrees
  import opened NodeArena
  import opened IndexSteps
  import opened Rebalancing
  import KernelHeap

  /** sizeof(bpt_node). */
  const SIZEOF_NODE := 112

  datatype Option<T> = None | Some(value: T)

  lemma GainedForeign(live: map<nat, nat>, live': map<nat, nat>, nodes: set<nat>, p: nat)
    requires KernelHeap.Gained(live, live', p, SIZEOF_NODE) && nodes <= live.Keys
    ensures p !in nodes && live' - (nodes + {p}) == live - nodes
    ensures p in live' && live'[p] >= SIZEOF_NODE && forall q | q in nodes :: q in live' && live'[q] == live[q]
  {
  }

  /** Freeing a node gives back at least one portion. */
  lemma RoomAfterFree(bs: seq<KernelHeap.Block>, p: nat)
    requires p in KernelHeap.Live(bs) && KernelHeap.Live(bs)[p] >= SIZEOF_NODE
    requires KernelHeap.WellFormed(bs)
    ensures var total := SIZEOF_NODE + KernelHeap.HEADER;
      KernelHeap.Room(KernelHeap.Released(bs, KernelHeap.BlockOf(bs, p)), total) > KernelHeap.Room(bs, total)
  {
    hide KernelHeap.Room, KernelHeap.Released;
    var total := SIZEOF_NODE + KernelHeap.HEADER;
    var i := KernelHeap.BlockOf(bs, p);
    KernelHeap.LiveAt(bs, 0, KernelHeap.HEAP_SIZE, i);
    KernelHeap.RoomReleased(bs, i, total);
    KernelHeap.OnePortion(bs[i].(used := false), total);
  }

  /** All cells are as before, and there is one more that nothing refers to. */
  ghost predicate LeakedOne(m: Mem, m': Mem) {
    exists q: Ptr :: q !in m && m' == m[q := BLANK.(leaf := true)]
  }

  class NameIndex {
    const heap: KernelHeap.Heap
    const root: Ptr
    const fnv1a: string -> U64
    const djb2: string -> U64

    /** The fields of every node obtained from the heap and not yet returned. */
    var mem: Mem

    /** The tree that `mem` holds, and the number of its inner levels. */
    ghost var tree: Tree
    ghost var height: nat

    /** Whether `create_node` returned NULL during the last insertion, and whether that left a
        split half done.  The original has no such flags. */
    var oom: bool
    var torn: bool

    /** Every node is a live heap block of sufficient size. */
    ghost predicate Backed()
      reads this`mem, heap
    {
      heap.Valid() && forall p | p in mem :: p in heap.Payloads() && heap.Payloads()[p] >= SIZEOF_NODE
    }

    /** The live heap blocks that are not nodes of this index. */
    ghost function Foreign(): map<nat, nat>
      reads this`mem, heap
    {
      heap.Payloads() - mem.Keys
    }

    /** How many more nodes the heap can provide. */
    ghost function Room(): nat
      reads heap
    {
      KernelHeap.Room(heap.blocks, SIZEOF_NODE + KernelHeap.HEADER)
    }

    /** The nodes in use and those that the heap can still provide. */
    ghost function Budget(): nat
      reads this`mem, heap
    {
      |mem.Keys| + Room()
    }

    ghost predicate Shapely()
      reads this
    {
      Built(mem, tree) && tree.id == root && RootShaped(tree, height)
    }

    ghost predicate Valid()
      reads this, heap
    {
      Backed() && Shapely() && Ascending(Entries(tree))
    }

    /** What callers hold: an index, or a NULL root because there was no memory for one. */
    ghost predicate Usable()
      reads this, heap
    {
      if root == 0 then Contents() == map[] else Valid()
    }

    ghost function Contents(): map<U64, (U64, U16)>
      reads this`tree
    {
      AsMap(Entries(tree))
    }

    /** An empty leaf as root, if the heap has room for it. */
    constructor (heap: KernelHeap.Heap, fnv1a: string -> U64, djb2: string -> U64)
      requires heap.Valid()
      modifies heap
      ensures Usable() && Contents() == map[] && Foreign() == old(heap.Payloads())
      ensures var room := KernelHeap.Room(old(heap.blocks), SIZEOF_NODE + KernelHeap.HEADER);
        (root != 0 <==> room > 0) && Budget() == room
      ensures this.heap == heap && this.fnv1a == fnv1a && this.djb2 == djb2 && !oom
    {
      hide KernelHeap.WellFormed, KernelHeap.Linked, KernelHeap.Live, KernelHeap.Taken, KernelHeap.Fits;
      hide KernelHeap.Room, KernelHeap.LowestFit;
      this.heap, this.fnv1a, this.djb2 := heap, fnv1a, djb2;
      var p := heap.Alloc(SIZEOF_NODE);
      KernelHeap.RoomAfterAlloc(old(heap.blocks), heap.blocks, p, SIZEOF_NODE + KernelHeap.HEADER);
      root := p;
      mem := if p == 0 then map[] else map[p := BLANK.(leaf := true)];
      oom, torn := false, false;
      tree, height := Leaf(p, []), 0;
      new;
      assert heap.Payloads() - mem.Keys == old(heap.Payloads());
      assert mem.Keys == if p == 0 then {} else {p};
      assert Leaves(tree) == [p] && Entries(tree) == [];
      if p != 0 {
        assert multiset(mem.Keys) == multiset{p};
      }
    }

    /** `create_node`. */
    method CreateNode(leaf: bool) returns (p: Ptr)
      requires Backed()
      modifies this`mem, this`oom, heap
      ensures Backed() && Foreign() == old(Foreign()) && Budget() == old(Budget())
      ensures p == 0 <==> old(Room()) == 0
      ensures p == 0 ==> oom && mem == old(mem) && Room() == 0
      ensures p != 0 ==> p !in old(mem) && mem == old(mem)[p := BLANK.(leaf := leaf)] && oom == old(oom)
      ensures p != 0 ==> Room() == old(Room()) - 1
    {
      hide KernelHeap.WellFormed, KernelHeap.Linked, KernelHeap.Taken, KernelHeap.Live, KernelHeap.Fits;
      hide KernelHeap.Room, KernelHeap.LowestFit, KernelHeap.Gained;
      p := heap.Alloc(SIZEOF_NODE);
      KernelHeap.RoomAfterAlloc(old(heap.blocks), heap.blocks, p, SIZEOF_NODE + KernelHeap.HEADER);
      if p == 0 {
        oom := true;
        return;
      }
      GainedForeign(old(heap.Payloads()), heap.Payloads(), old(mem.Keys), p);
      mem := mem[p := BLANK.(leaf := leaf)];
      assert mem.Keys == old(mem.Keys) + {p};
    }

    /** `heap_free` of a node. */
    method FreeNode(p: Ptr)
      requires Backed() && p in mem
      modifies this`mem, heap
      ensures Backed() && Foreign() == old(Foreign()) && Budget() >= old(Budget()) && mem.Keys <= old(mem.Keys)
      ensures mem == old(mem) - {p}
    {
      hide KernelHeap.WellFormed, KernelHeap.Linked, KernelHeap.Released, KernelHeap.Room;
      RoomAfterFree(heap.blocks, p);
      heap.Free(p);
      mem := mem - {p};
      assert heap.Payloads() - mem.Keys == old(heap.Payloads()) - old(mem.Keys);
      assert mem.Keys == old(mem.Keys) - {p};
    }

    // ----- searching -----

    /** `search_leaf`: descends to the only leaf that may hold `key`. */
    method SearchLeaf(key: U64) returns (leaf: Ptr, ghost c: Ctx, ghost es: seq<Entry>)
      requires Shapely() && Ascending(Entries(tree))
      ensures InHole(mem, c, Leaf(leaf, es)) && Plug(c, Leaf(leaf, es)) == tree
      ensures Around(c, Leaf(leaf, es), key) && CtxShaped(c, 0)
      ensures |es| <= 3 && (c.Frame? ==> |es| >= 2) && CtxDepth(c) == height
      ensures NodesNeeded(tree, key) == NodesForLeaf(c, es)
    {
      hide Descending, Ids, IdsF, LeavesF, EntriesF;
      ghost var t := tree;
      ghost var h := height;
      c := Top;
      var current := root;
      DescentStarts(mem, tree, height, key);
      while !mem[current].leaf
        invariant current == t.id && current in mem && Descending(mem, tree, height, c, t, h, key)
        decreases h
      {
        DescentNode(mem, tree, height, c, t, h, key);
        var index := ChildIndex(current, key, t);
        DescentNext(mem, tree, height, c, t, h, key, index);
        current := mem[current].child[index];
        c, t, h := CtxAt(c, t, index), t.kids[index], h - 1;
        DescentNode(mem, tree, height, c, t, h, key);
      }
      DescentNode(mem, tree, height, c, t, h, key);
      leaf, es := current, t.es;
      DescentEnds(mem, tree, height, c, leaf, es, h, key);
    }

    /** The loop that picks the child to follow. */
    method ChildIndex(p: Ptr, key: U64, ghost t: Tree) returns (index: nat)
      requires Rep(mem, t) && t.Inner? && t.id == p
      ensures index < |t.kids|
      ensures index > 0 ==> Min(t.kids[index]) <= key
      ensures index + 1 < |t.kids| ==> key < Min(t.kids[index + 1])
      ensures index == Towards(t.kids, key)
    {
      index := 0;
      assert t.kids[0..] == t.kids;
      while index < mem[p].dataNum && key >= mem[p].fnv[index]
        invariant index <= mem[p].dataNum
        invariant index > 0 ==> Min(t.kids[index]) <= key
        invariant Towards(t.kids, key) == index + Towards(t.kids[index..], key)
      {
        assert mem[p].fnv[index] == Min(t.kids[index + 1]);
        assert t.kids[index..][1..] == t.kids[index + 1..];
        index := index + 1;
      }
      if index < mem[p].dataNum {
        assert mem[p].fnv[index] == Min(t.kids[index + 1]);
      }
    }

    /** `bpt_search`: the slot whose value the caller may read or write. */
    method Search(name: Option<string>) returns (r: Option<(Ptr, nat)>)
      requires Usable()
      ensures r.Some? <==>
        name.Some? && fnv1a(name.value) in Contents() && Contents()[fnv1a(name.value)].0 == djb2(name.value)
      ensures r.Some? ==> r.value.0 in mem && r.value.1 < 3
      ensures r.Some? ==> mem[r.value.0].data[r.value.1] == Contents()[fnv1a(name.value)].1
    {
      if root == 0 || name.None? {
        return None;
      }
      var f, d := fnv1a(name.value), djb2(name.value);
      var leaf, c, es := SearchLeaf(f);
      var index := 0;
      while index < mem[leaf].dataNum
        invariant index <= mem[leaf].dataNum == |es|
        invariant forall i | 0 <= i < index :: !(es[i].fnv == f && es[i].djb == d)
      {
        assert Slot(mem[leaf], index) == es[index];
        if mem[leaf].fnv[index] == f && mem[leaf].djb[index] == d {
          FoundInLeaf(tree, c, leaf, es, index);
          return Some((leaf, index));
        }
        index := index + 1;
      }
      NotInLeaf(tree, c, leaf, es, f, d);
      return None;
    }

    // ----- writing nodes -----

    /** `put_leaf`. */
    method PutLeaf(leaf: Ptr, items: seq<Entry>)
      requires leaf in mem && |items| <= 3
      modifies this`mem
      ensures LeafRewritten(old(mem), mem, leaf, items)
    {
      mem := mem[leaf := mem[leaf].(leaf := true, dataNum := |items|)];
      var index := 0;
      while index < |items|
        invariant index <= |items| && leaf in mem && mem == old(mem)[leaf := mem[leaf]]
        invariant mem[leaf].leaf && mem[leaf].dataNum == |items|
        invariant mem[leaf].parent == old(mem[leaf].parent) && mem[leaf].next == old(mem[leaf].next)
        invariant forall i | 0 <= i < index :: Slot(mem[leaf], i) == items[i]
      {
        mem := mem[leaf := WithSlot(mem[leaf], index, items[index])];
        index := index + 1;
      }
    }

    /** `put_inner`. */
    method PutInner(internal: Ptr, keys: seq<U64>, children: seq<Ptr>, ghost kids: seq<Tree>)
      requires internal in mem && |keys| <= 3 && |children| == |keys| + 1 == |kids|
      requires forall i | 0 <= i < |kids| :: children[i] == kids[i].id && children[i] in mem && children[i] != internal
      modifies this`mem
      ensures InnerWritten(old(mem), mem, internal, keys, kids)
    {
      ghost var m := mem;
      PutKeys(internal, keys);
      PutChildren(internal, children, kids, m);
    }

    method PutKeys(internal: Ptr, keys: seq<U64>)
      requires internal in mem && |keys| <= 3
      modifies this`mem
      ensures internal in mem && mem == old(mem)[internal := mem[internal]]
      ensures !mem[internal].leaf && mem[internal].dataNum == |keys|
      ensures mem[internal].parent == old(mem[internal].parent)
      ensures forall i | 0 <= i < |keys| :: mem[internal].fnv[i] == keys[i]
    {
      mem := mem[internal := mem[internal].(leaf := false, dataNum := |keys|)];
      var index := 0;
      while index < |keys|
        invariant index <= |keys| && internal in mem && mem == old(mem)[internal := mem[internal]]
        invariant !mem[internal].leaf && mem[internal].dataNum == |keys|
        invariant mem[internal].parent == old(mem[internal].parent)
        invariant forall i | 0 <= i < index :: mem[internal].fnv[i] == keys[i]
      {
        mem := mem[internal := mem[internal].(fnv := mem[internal].fnv[index := keys[index]])];
        index := index + 1;
      }
    }

    method SetChild(node: Ptr, index: nat, child: Ptr)
      requires node in mem && child in mem && node != child && index < 4
      modifies this`mem
      ensures var n := old(mem[node]);
        mem == old(mem)[node := n.(child := n.child[index := child])][child := old(mem[child]).(parent := node)]
    {
      mem := mem[node := mem[node].(child := mem[node].child[index := child])];
      mem := mem[child := mem[child].(parent := node)];
    }

    /** The children are stored and learn their parent. */
    method PutChildren(internal: Ptr, children: seq<Ptr>, ghost kids: seq<Tree>, ghost m: Mem)
      requires internal in mem && internal in m && mem == m[internal := mem[internal]]
      requires !mem[internal].leaf && mem[internal].dataNum + 1 == |children| == |kids| <= 4
      requires forall i | 0 <= i < |kids| :: children[i] == kids[i].id && children[i] in mem && children[i] != internal
      modifies this`mem
      ensures mem.Keys == old(mem.Keys) && InnerIs(mem[internal], kids)
      ensures mem[internal] == old(mem[internal]).(child := mem[internal].child)
      ensures forall p | p in m && p != internal ::
        mem[p] == if IsRoot(kids, p) then m[p].(parent := internal) else m[p]
    {
      hide Reparented, IsRoot;
      assert kids[..0] == [];
      ReparentedNone(m, mem, internal, internal, internal);
      var index := 0;
      while index < |children|
        invariant index <= |children| && mem.Keys == m.Keys
        invariant mem[internal] == old(mem[internal]).(child := mem[internal].child)
        invariant forall i | 0 <= i < index :: mem[internal].child[i] == children[i]
        invariant Reparented(m, mem, internal, internal, kids[..index], internal)
      {
        ghost var m1 := mem;
        SetChild(internal, index, children[index]);
        ReparentedNext(m, m1, mem, internal, internal, kids, index, internal);
        index := index + 1;
      }
      assert kids[..index] == kids;
      ReparentedMeans(m, mem, internal, internal, kids, internal);
    }

    // ----- inserting into a leaf -----

    /** The first position whose key is not below `key`. */
    method FindPosition(leaf: Ptr, key: U64, ghost es: seq<Entry>) returns (position: nat)
      requires leaf in mem && LeafIs(mem[leaf], es)
      ensures position <= |es| && AllBelow(es[..position], key)
      ensures position < |es| ==> key <= es[position].fnv
    {
      position := 0;
      while position < mem[leaf].dataNum && mem[leaf].fnv[position] < key
        invariant position <= |es| && AllBelow(es[..position], key)
      {
        assert Slot(mem[leaf], position) == es[position];
        position := position + 1;
      }
      if position < |es| {
        assert Slot(mem[leaf], position) == es[position];
      }
    }

    /** The shifting loop that makes room in a leaf. */
    method InsertInLeaf(leaf: Ptr, position: nat, e: Entry, ghost es: seq<Entry>)
      requires leaf in mem && LeafIs(mem[leaf], es) && position <= |es| < 3
      modifies this`mem
      ensures LeafRewritten(old(mem), mem, leaf, InsertAt(es, position, e))
    {
      var index := mem[leaf].dataNum;
      while index > position
        invariant position <= index <= |es| && leaf in mem && mem == old(mem)[leaf := mem[leaf]]
        invariant mem[leaf].leaf && mem[leaf].dataNum == |es|
        invariant mem[leaf].parent == old(mem[leaf].parent) && mem[leaf].next == old(mem[leaf].next)
        invariant forall i | 0 <= i < index :: Slot(mem[leaf], i) == es[i]
        invariant forall i | index <= i < |es| :: Slot(mem[leaf], i + 1) == es[i]
      {
        assert Slot(mem[leaf], index - 1) == es[index - 1];
        mem := mem[leaf := WithSlot(mem[leaf], index, Slot(mem[leaf], index - 1))];
        index := index - 1;
      }
      mem := mem[leaf := WithSlot(mem[leaf], position, e)];
      mem := mem[leaf := mem[leaf].(dataNum := mem[leaf].dataNum + 1)];
      ghost var es' := InsertAt(es, position, e);
      forall i | 0 <= i < |es'|
        ensures Slot(mem[leaf], i) == es'[i]
      {
        if i > position {
          assert es'[i] == es[i - 1] && Slot(mem[leaf], i - 1 + 1) == es[i - 1];
        }
      }
    }

    /** The entries of a full leaf with `e` put in. */
    method Overfull(leaf: Ptr, position: nat, e: Entry, ghost es: seq<Entry>) returns (items: seq<Entry>)
      requires leaf in mem && LeafIs(mem[leaf], es) && position <= |es|
      ensures items == InsertAt(es, position, e)
    {
      items := [];
      var index := 0;
      while index < position
        invariant index <= position && items == es[..index]
      {
        assert Slot(mem[leaf], index) == es[index];
        items := items + [Slot(mem[leaf], index)];
        index := index + 1;
      }
      items := items + [e];
      index := position;
      while index < mem[leaf].dataNum
        invariant position <= index <= |es| && items == es[..position] + [e] + es[position..index]
      {
        assert Slot(mem[leaf], index) == es[index];
        items := items + [Slot(mem[leaf], index)];
        index := index + 1;
      }
    }

    /** `bpt_insert`: refuses exactly the keys that are present, and those that need more nodes than
        the heap can provide.  If it can provide none at all, the index stays as it was. */
    method Insert(name: Option<string>, value: U16) returns (ok: bool)
      requires Usable()
      modifies this, heap
      ensures root == 0 || name.None? ==> !ok && Usable() && Contents() == old(Contents()) && !oom
      ensures root != 0 && name.Some? ==> (ok <==> fnv1a(name.value) !in old(Contents()) && !oom)
      ensures oom <==>
        root != 0 && name.Some? && fnv1a(name.value) !in old(Contents()) &&
        old(Room()) < NodesNeeded(old(tree), fnv1a(name.value))
      ensures torn <==> oom && old(Room()) > 0
      ensures !torn ==> Usable()
      ensures !torn && ok ==>
        name.Some? && Contents() == old(Contents())[fnv1a(name.value) := (djb2(name.value), value)]
      ensures !torn && !ok ==> mem == old(mem) && tree == old(tree) && height == old(height)
      ensures Budget() == old(Budget())
      ensures Room() == if oom then 0 else old(Room()) - if ok then NodesNeeded(old(tree), fnv1a(name.value)) else 0
      ensures old(height) == 0 && torn ==> LeakedOne(old(mem), mem) && tree == old(tree)
      ensures root != 0 ==> heap.Valid() && Foreign() == old(Foreign())
    {
      oom, torn := false, false;
      if root == 0 || name.None? {
        return false;
      }
      ok := InsertHashed(fnv1a(name.value), djb2(name.value), value);
    }

    method InsertHashed(f: U64, d: U64, value: U16) returns (ok: bool)
      requires Valid() && !oom && !torn
      modifies this, heap
      ensures heap.Valid() && Foreign() == old(Foreign())
      ensures ok <==> f !in old(Contents()) && !oom
      ensures oom <==> f !in old(Contents()) && old(Room()) < NodesNeeded(old(tree), f)
      ensures torn <==> oom && old(Room()) > 0
      ensures Budget() == old(Budget())
      ensures Room() == if oom then 0 else old(Room()) - if ok then NodesNeeded(old(tree), f) else 0
      ensures !torn ==> Valid()
      ensures !torn && ok ==> Contents() == old(Contents())[f := (d, value)]
      ensures !torn && !ok ==> mem == old(mem) && tree == old(tree) && height == old(height)
      ensures old(height) == 0 && torn ==> LeakedOne(old(mem), mem) && tree == old(tree)
    {
      hide InHole, Around, Built, Plug, CtxShaped, RootShaped, Ascending, AsMap, Entries, EntriesBefore, EntriesAfter;
      hide Min, LeftEdge, LeakedOne, KernelHeap.WellFormed, KernelHeap.Linked, KernelHeap.Live, KernelHeap.Room;
      var leaf, c, es := SearchLeaf(f);
      LeafInHole(mem, c, leaf, es);
      TopIsRoot(c, height);
      var position := FindPosition(leaf, f, es);
      if position < |es| {
        assert Slot(mem[leaf], position) == es[position];
      }
      if position < mem[leaf].dataNum && mem[leaf].fnv[position] == f {
        FoundInLeaf(tree, c, leaf, es, position);
        return false;
      }
      var e := Entry(f, d, value);
      InsertedContents(tree, c, leaf, es, position, e);
      InsertedMin(c, leaf, es, position, e);
      ok := InsertEntry(leaf, position, e, c, es);
    }

    /** Puts a new entry into its leaf, splitting the leaf if it is full. */
    method InsertEntry(leaf: Ptr, position: nat, e: Entry, ghost c: Ctx, ghost es: seq<Entry>) returns (ok: bool)
      requires Backed() && !oom && !torn && InHole(mem, c, Leaf(leaf, es)) && position <= |es| <= 3
      requires CtxShaped(c, 0) && Plug(c, Leaf(leaf, es)).id == root && (c.Frame? ==> |es| >= 2)
      requires Min(Leaf(leaf, InsertAt(es, position, e))) == Min(Leaf(leaf, es)) || LeftEdge(c)
      modifies this, heap
      ensures Backed() && Foreign() == old(Foreign()) && Budget() == old(Budget())
      ensures ok == !oom && (oom <==> old(Room()) < NodesForLeaf(c, es)) && (torn <==> oom && old(Room()) > 0)
      ensures Room() == if ok then old(Room()) - NodesForLeaf(c, es) else 0
      ensures oom && !torn ==> mem == old(mem) && tree == old(tree) && height == old(height)
      ensures c.Top? && torn ==> LeakedOne(old(mem), mem) && tree == old(tree)
      ensures !oom ==> Shapely() && Entries(tree) == EntriesBefore(c) + InsertAt(es, position, e) + EntriesAfter(c)
    {
      if mem[leaf].dataNum < MAX_BPT_NODE_NUM - 1 {
        ghost var m := mem;
        InsertInLeaf(leaf, position, e, es);
        ReplaceLeaf(m, c, leaf, es, InsertAt(es, position, e));
        return true;
      }
      var items := Overfull(leaf, position, e, es);
      ok := SplitLeaf(leaf, items, c, es);
    }

    /** Ghost bookkeeping after a leaf was rewritten in place. */
    ghost method ReplaceLeaf(m: Mem, c: Ctx, leaf: Ptr, es: seq<Entry>, es': seq<Entry>)
      requires InHole(m, c, Leaf(leaf, es)) && LeafRewritten(m, mem, leaf, es')
      requires Min(Leaf(leaf, es')) == Min(Leaf(leaf, es)) || LeftEdge(c)
      requires Plug(c, Leaf(leaf, es)).id == root && CtxShaped(c, 0) && |es'| <= 3 && (c.Frame? ==> |es'| >= 2)
      modifies this`tree, this`height
      ensures Shapely()
      ensures Entries(tree) == EntriesBefore(c) + es' + EntriesAfter(c)
    {
      hide InHole, LeafRewritten, Ids, IdsF, LeavesF, LeftEdge;
      LeafReplaced(m, mem, c, leaf, es, es');
      InHoleBuilt(mem, c, Leaf(leaf, es'));
      PlugShaped(c, Leaf(leaf, es'), 0);
      PlugParts(c, Leaf(leaf, es'));
      OutermostSame(c, Leaf(leaf, es), Leaf(leaf, es'));
      tree, height := Plug(c, Leaf(leaf, es')), CtxDepth(c);
    }

    /** A full leaf is split into two. */
    method SplitLeaf(leaf: Ptr, items: seq<Entry>, ghost c: Ctx, ghost es: seq<Entry>) returns (ok: bool)
      requires Backed() && !oom && !torn && InHole(mem, c, Leaf(leaf, es)) && |items| == 4
      requires CtxShaped(c, 0) && Plug(c, Leaf(leaf, es)).id == root
      requires Min(Leaf(leaf, items[..2])) == Min(Leaf(leaf, es)) || LeftEdge(c)
      modifies this, heap
      ensures Backed() && Foreign() == old(Foreign()) && Budget() == old(Budget())
      ensures ok == !oom && (oom <==> old(Room()) < 1 + Spill(c)) && (torn <==> oom && old(Room()) > 0)
      ensures Room() == if ok then old(Room()) - (1 + Spill(c)) else 0
      ensures oom && !torn ==> mem == old(mem) && tree == old(tree) && height == old(height)
      ensures c.Top? && torn ==> LeakedOne(old(mem), mem) && tree == old(tree)
      ensures !oom ==> Shapely() && Entries(tree) == EntriesBefore(c) + items + EntriesAfter(c)
    {
      SpillOver(c);
      TopEntries(c, items);
      hide InHole, Plug, CtxShaped, LeftEdge, Built, RootShaped, LeakedOne, Entries, Min, Spill;
      hide EntriesBefore, EntriesAfter, Backed, Foreign, Shapely;
      hide KernelHeap.Room;
      ghost var m := mem;
      RootIffTopHole(m, c, leaf, es, root);
      var rightLeaf := CreateNode(true);
      if rightLeaf == 0 {
        return false;
      }
      Leaks(m, rightLeaf);
      if leaf == root {
        ok := SplitTopLeaf(rightLeaf, items, es, m);
        return;
      }
      ok := SplitLowerLeaf(leaf, rightLeaf, items, c, es, m);
    }

    /** A full leaf below the root hands its right half to the fresh leaf. */
    method SplitLowerLeaf(leaf: Ptr, rightLeaf: Ptr, items: seq<Entry>, ghost c: Ctx, ghost es: seq<Entry>,
                          ghost m: Mem) returns (ok: bool)
      requires Backed() && !oom && !torn && InHole(m, c, Leaf(leaf, es)) && c.Frame? && |items| == 4
      requires rightLeaf != 0 && rightLeaf !in m && mem == m[rightLeaf := BLANK.(leaf := true)]
      requires CtxShaped(c, 0) && Plug(c, Leaf(leaf, es)).id == root
      requires Min(Leaf(leaf, items[..2])) == Min(Leaf(leaf, es)) || LeftEdge(c)
      modifies this, heap
      ensures Backed() && Foreign() == old(Foreign()) && Budget() == old(Budget())
      ensures ok == !oom && torn == oom && (ok <==> old(Room()) >= Spill(c))
      ensures Room() == if ok then old(Room()) - Spill(c) else 0
      ensures !oom ==> Shapely() && Entries(tree) == EntriesBefore(c) + items + EntriesAfter(c)
    {
      hide InHole, SplitInHole, Plug, CtxShaped, LeftEdge, Built, RootShaped, Spill;
      hide KernelHeap.WellFormed, KernelHeap.Linked, KernelHeap.Live, KernelHeap.Room;
      var leftCount := (MAX_BPT_NODE_NUM + 1) / 2;
      assert items == items[..2] + items[2..];
      LinkRightLeaf(leaf, rightLeaf, items[..leftCount], items[leftCount..], c, es, m);
      OutermostSame(c, Leaf(leaf, es), Leaf(leaf, items[..2]));
      ok := AddParent(leaf, mem[rightLeaf].fnv[0], rightLeaf, c,
                      Leaf(leaf, items[..2]), Leaf(rightLeaf, items[2..]), 0);
      torn := !ok;
    }

    /** A full root leaf needs a second fresh leaf. */
    method SplitTopLeaf(rightLeaf: Ptr, items: seq<Entry>, ghost es: seq<Entry>, ghost m: Mem) returns (ok: bool)
      requires Backed() && !oom && !torn && InHole(m, Top, Leaf(root, es)) && |items| == 4
      requires rightLeaf != 0 && rightLeaf !in m && mem == m[rightLeaf := BLANK.(leaf := true)]
      modifies this, heap
      ensures Backed() && Foreign() == old(Foreign()) && Budget() == old(Budget())
      ensures ok == !oom && torn == oom && (oom <==> old(Room()) == 0)
      ensures Room() == if ok then old(Room()) - 1 else 0
      ensures oom ==> mem == old(mem) && tree == old(tree) && height == old(height)
      ensures !oom ==> Shapely() && Entries(tree) == items
    {
      hide InHole, Built, RootShaped, Entries;
      hide KernelHeap.WellFormed, KernelHeap.Linked, KernelHeap.Live, KernelHeap.Room;
      var leftCount := (MAX_BPT_NODE_NUM + 1) / 2;
      assert items == items[..2] + items[2..];
      var leftLeaf := CreateNode(true);
      if leftLeaf == 0 {
        torn := true;
        return false;
      }
      SplitRootLeaf(leftLeaf, rightLeaf, items[..leftCount], items[leftCount..], es, m);
      ok := true;
    }

    /** The root leaf hands its entries to two fresh leaves. */
    method SplitRootLeaf(leftLeaf: Ptr, rightLeaf: Ptr, leftItems: seq<Entry>, rightItems: seq<Entry>,
                         ghost es: seq<Entry>, ghost m: Mem)
      requires InHole(m, Top, Leaf(root, es)) && leftLeaf != 0 && rightLeaf != 0 && leftLeaf != rightLeaf
      requires leftLeaf !in m && rightLeaf !in m
      requires mem == m[rightLeaf := BLANK.(leaf := true)][leftLeaf := BLANK.(leaf := true)]
      requires |leftItems| == |rightItems| == 2
      modifies this`mem, this`tree, this`height
      ensures mem.Keys == old(mem.Keys) && Shapely() && Entries(tree) == leftItems + rightItems
    {
      PutLeaf(leftLeaf, leftItems);
      PutLeaf(rightLeaf, rightItems);
      mem := mem[leftLeaf := mem[leftLeaf].(next := rightLeaf)];
      ghost var ta, tb := Leaf(leftLeaf, leftItems), Leaf(rightLeaf, rightItems);
      assert mem.Keys == m.Keys + {leftLeaf, rightLeaf};
      RootLeafOpened(m, mem, root, es, leftLeaf, leftItems, rightLeaf, rightItems);
      assert Slot(mem[rightLeaf], 0) == rightItems[0];
      WriteRoot(mem[rightLeaf].fnv[0], leftLeaf, rightLeaf, Leaf(root, es), ta, tb, 0);
      ForestTwo(ta, tb);
    }

    /** A leaf below the root keeps the left half; the right half follows it in the chain. */
    method LinkRightLeaf(leaf: Ptr, rightLeaf: Ptr, leftItems: seq<Entry>, rightItems: seq<Entry>,
                         ghost c: Ctx, ghost es: seq<Entry>, ghost m: Mem)
      requires InHole(m, c, Leaf(leaf, es)) && c.Frame? && rightLeaf !in m && rightLeaf != 0
      requires mem == m[rightLeaf := BLANK.(leaf := true)]
      requires |leftItems| == |rightItems| == 2
      requires Min(Leaf(leaf, leftItems)) == Min(Leaf(leaf, es)) || LeftEdge(c)
      modifies this`mem
      ensures mem.Keys == old(mem.Keys)
      ensures SplitInHole(mem, c, Leaf(leaf, leftItems), Leaf(rightLeaf, rightItems))
      ensures mem[rightLeaf].fnv[0] == rightItems[0].fnv
    {
      hide RepCtx, SepCtx, SplitInHole, Chain, Owns;
      var oldNext := mem[leaf].next;
      PutLeaf(leaf, leftItems);
      PutLeaf(rightLeaf, rightItems);
      LinkBehind(leaf, rightLeaf, oldNext);
      LeafSplit(m, mem, c, leaf, es, leftItems, rightLeaf, rightItems);
      assert Slot(mem[rightLeaf], 0) == rightItems[0];
    }

    /** `rightLeaf` comes after `leaf` in the chain and gets the same parent. */
    method LinkBehind(leaf: Ptr, rightLeaf: Ptr, oldNext: Ptr)
      requires leaf in mem && rightLeaf in mem && leaf != rightLeaf
      modifies this`mem
      ensures var n, k := old(mem[leaf]), old(mem[rightLeaf]);
        mem == old(mem)[leaf := n.(next := rightLeaf)][rightLeaf := k.(next := oldNext, parent := n.parent)]
    {
      mem := mem[leaf := mem[leaf].(next := rightLeaf)];
      mem := mem[rightLeaf := mem[rightLeaf].(next := oldNext)];
      mem := mem[rightLeaf := mem[rightLeaf].(parent := mem[leaf].parent)];
    }

    // ----- linking a new node into the ancestors -----

    /** The scan of the parent for the child `left`. */
    method FindChild(parent: Ptr, left: Ptr, ghost c: Ctx, ghost t: Tree) returns (index: nat)
      requires c.Frame? && c.id == parent && t.id == left
      requires RepCtx(mem, c, t) && CtxIds(c) + Ids(t) <= multiset(mem.Keys)
      ensures index == |c.left| <= mem[parent].dataNum
    {
      ghost var kids := c.left + [t] + c.right;
      ChildUnique(mem, c, t);
      assert kids[|c.left|] == t;
      index := 0;
      while index <= mem[parent].dataNum && mem[parent].child[index] != left
        invariant 0 <= index <= |c.left|
      {
        assert mem[parent].child[index] == kids[index].id;
        index := index + 1;
      }
      assert mem[parent].child[index] == kids[index].id;
    }

    /** The keys and children of `parent` with the new pair put in behind `index`. */
    method MakeRoom(parent: Ptr, index: nat, separator: U64, right: Ptr) returns (keys: seq<U64>, children: seq<Ptr>)
      requires parent in mem && index <= mem[parent].dataNum
      ensures var n := mem[parent];
        keys == n.fnv[..index] + [separator] + n.fnv[index..n.dataNum] &&
        children == n.child[..index + 1] + [right] + n.child[index + 1..n.dataNum + 1]
    {
      var n := mem[parent];
      keys := CopyRange([], n.fnv, 0, index);
      keys := CopyRange(keys + [separator], n.fnv, index, n.dataNum);
      children := CopyRange([], n.child, 0, index + 1);
      children := CopyRange(children + [right], n.child, index + 1, n.dataNum + 1);
    }

    /** A loop that copies a part of one list behind another. */
    static method CopyRange<T>(target: seq<T>, source: seq<T>, from: nat, to: nat) returns (r: seq<T>)
      requires from <= to <= |source|
      ensures r == target + source[from..to]
    {
      r := target;
      var i := from;
      while i < to
        invariant from <= i <= to && r == target + source[from..i]
      {
        r := r + [source[i]];
        i := i + 1;
      }
    }

    /** `add_parent`: links `right` behind `left`, splitting ancestors as needed. */
    method AddParent(left: Ptr, separator: U64, right: Ptr, ghost c: Ctx, ghost tl: Tree, ghost tr: Tree, ghost h: nat)
      returns (ok: bool)
      requires Backed() && SplitInHole(mem, c, tl, tr) && !oom
      requires left == tl.id && right == tr.id && separator == Min(tr)
      requires CtxShaped(c, h) && Shaped(tl, h) && Shaped(tr, h) && Plug(c, tl).id == root
      modifies this, heap
      ensures Backed() && Foreign() == old(Foreign()) && Budget() == old(Budget())
      ensures ok == !oom && (ok <==> old(Room()) >= Spill(c)) && Room() == if ok then old(Room()) - Spill(c) else 0
      ensures !oom ==> Shapely()
      ensures !oom ==> Entries(tree) == EntriesBefore(c) + (Entries(tl) + Entries(tr)) + EntriesAfter(c)
      decreases c, 1
    {
      hide Parts, SepCtx, Ids, IdsF, Leaves, LeavesF, Entries, EntriesF, KernelHeap.Room;
      var parent, keys, children := OpenParent(left, separator, right, c, tl, tr, h);
      ghost var kids := OpenedKids(c, tl, tr);
      ghost var told := Inner(c.id, c.left + [tl] + c.right);
      if |keys| < MAX_BPT_NODE_NUM {
        Absorb(parent, keys, children, c, told, kids, h);
        return true;
      }
      ok := SplitParent(parent, keys, children, c, told, kids, h);
    }

    /** The parent is full: it is split as well. */
    method SplitParent(parent: Ptr, keys: seq<U64>, children: seq<Ptr>,
                       ghost c: Ctx, ghost told: Tree, ghost kids: seq<Tree>, ghost h: nat)
      returns (ok: bool)
      requires Backed() && !oom && c.Frame? && parent == c.id == told.id && parent != 0 && Plug(c.up, told).id == root
      requires Parts(mem, c.up, told, kids, multiset{parent}) && SepCtx(mem, c.up, told)
      requires KeysFor(keys, kids) && |keys| == 4 && |children| == |kids| && ShapedF(kids, h)
      requires forall i | 0 <= i < |kids| :: children[i] == kids[i].id
      requires Min(told) == Min(kids[0]) && CtxShaped(c.up, h + 1) && |c.left| + |c.right| == 3
      modifies this, heap
      ensures Backed() && Foreign() == old(Foreign()) && Budget() == old(Budget())
      ensures ok == !oom && (ok <==> old(Room()) >= Spill(c)) && Room() == if ok then old(Room()) - Spill(c) else 0
      ensures !oom ==> Shapely()
      ensures !oom ==> Entries(tree) == EntriesBefore(c.up) + EntriesF(kids) + EntriesAfter(c.up)
      decreases c, 0
    {
      hide Rep, Reps, RepF, Loose, Parts, SepCtx, SplitInHole, Ids, IdsF, Leaves, LeavesF, EntriesF;
      hide KernelHeap.Room, KernelHeap.WellFormed, KernelHeap.Linked, KernelHeap.Live;
      hide Shaped, ShapedF, KeysFor, CtxShaped, Min;
      OneMoreKid(keys, kids);
      SpillOver(c);
      SpillOver(c.up);
      TopEntries(c.up, EntriesF(kids));
      hide Spill, EntriesBefore, EntriesAfter;
      var rightInternal := CreateLoose(c.up, told, kids, multiset{parent});
      if rightInternal == 0 {
        return false;
      }
      RootIffTop(mem, c.up, told, kids, multiset{parent} + multiset{rightInternal}, root);
      if parent == root {
        ok := SplitRoot(parent, keys, children, rightInternal, c, told, kids, h);
      } else {
        ghost var t1, t2 := Inner(parent, kids[..3]), Inner(rightInternal, kids[3..]);
        SplitInner(parent, keys, children, rightInternal, c, told, kids, h);
        OutermostSame(c.up, told, t1);
        assert Entries(t1) + Entries(t2) == EntriesF(kids) by {
          SplitEntries(kids);
        }
        ok := AddParent(parent, keys[2], rightInternal, c.up, t1, t2, h + 1);
      }
    }

    /** Finds the parent and lays out its keys and children with the new pair included. */
    method OpenParent(left: Ptr, separator: U64, right: Ptr, ghost c: Ctx, ghost tl: Tree, ghost tr: Tree, ghost h: nat)
      returns (parent: Ptr, keys: seq<U64>, children: seq<Ptr>)
      requires SplitInHole(mem, c, tl, tr)
      requires left == tl.id && right == tr.id && separator == Min(tr)
      requires CtxShaped(c, h) && Shaped(tl, h) && Shaped(tr, h)
      ensures parent == c.id && parent != 0
      ensures KeysFor(keys, OpenedKids(c, tl, tr)) && 2 <= |keys| <= 4
      ensures |children| == |OpenedKids(c, tl, tr)| && ShapedF(OpenedKids(c, tl, tr), h)
      ensures forall i | 0 <= i < |children| :: children[i] == OpenedKids(c, tl, tr)[i].id
      ensures Parts(mem, c.up, Inner(c.id, c.left + [tl] + c.right), OpenedKids(c, tl, tr), multiset{c.id})
      ensures SepCtx(mem, c.up, Inner(c.id, c.left + [tl] + c.right))
      ensures Min(Inner(c.id, c.left + [tl] + c.right)) == Min(OpenedKids(c, tl, tr)[0])
      ensures EntriesBefore(c) + (Entries(tl) + Entries(tr)) + EntriesAfter(c)
           == EntriesBefore(c.up) + EntriesF(OpenedKids(c, tl, tr)) + EntriesAfter(c.up)
    {
      parent := mem[left].parent;
      assert parent != 0 && parent == c.id;  // the source's test for a missing parent never fires
      var index := FindChild(parent, left, c, tl);
      keys, children := MakeRoom(parent, index, separator, right);
      OpenedKeys(mem[parent], c, tl, tr, keys);
      OpenedChildren(mem[parent], c, tl, tr, children);
      OpenedShaped(c, tl, tr, h);
      OpenedMin(c, tl, tr);
      Opened(mem, c, tl, tr);
      OpenedEntries(c, tl, tr);
    }

    /** `create_node(0)` while a hole is open: the new node is loose. */
    method CreateLoose(ghost c: Ctx, ghost told: Tree, ghost ts: seq<Tree>, ghost rest: multiset<Ptr>) returns (p: Ptr)
      requires Backed() && Parts(mem, c, told, ts, rest) && SepCtx(mem, c, told)
      modifies this`mem, this`oom, heap
      ensures Backed() && Foreign() == old(Foreign()) && Budget() == old(Budget())
      ensures p == 0 <==> old(Room()) == 0
      ensures if p == 0 then oom && Room() == 0 else Room() == old(Room()) - 1
      ensures p != 0 ==> oom == old(oom) && Parts(mem, c, told, ts, rest + multiset{p}) && SepCtx(mem, c, told)
    {
      ghost var m := mem;
      p := CreateNode(false);
      if p != 0 {
        PartsFresh(m, mem, c, told, ts, rest, p);
      }
    }

    /** A full parent that is not the root keeps the left three children. */
    method SplitInner(parent: Ptr, keys: seq<U64>, children: seq<Ptr>, rightInternal: Ptr,
                      ghost c: Ctx, ghost told: Tree, ghost kids: seq<Tree>, ghost h: nat)
      requires c.Frame? && c.up.Frame? && parent == c.id == told.id && parent != 0 && rightInternal != 0
      requires Parts(mem, c.up, told, kids, multiset{parent} + multiset{rightInternal}) && SepCtx(mem, c.up, told)
      requires KeysFor(keys, kids) && |keys| == 4 && |children| == |kids| && ShapedF(kids, h)
      requires forall i | 0 <= i < |kids| :: children[i] == kids[i].id
      requires Min(told) == Min(kids[0])
      modifies this`mem
      ensures mem.Keys == old(mem.Keys)
      ensures SplitInHole(mem, c.up, Inner(parent, kids[..3]), Inner(rightInternal, kids[3..]))
      ensures Shaped(Inner(parent, kids[..3]), h + 1) && Shaped(Inner(rightInternal, kids[3..]), h + 1)
      ensures keys[2] == Min(Inner(rightInternal, kids[3..]))
    {
      hide Ids, IdsF, Leaves, LeavesF, Entries, EntriesF, Parts, SplitInHole, SepCtx, Rep, Reps, Min, Shaped;
      var middle := (|keys|) / 2;
      ghost var k1, k2 := kids[..3], kids[3..];
      ghost var t1, t2 := Inner(parent, k1), Inner(rightInternal, k2);
      MinOfTail(keys, kids, 3, rightInternal);
      HalvesOfFive(keys, kids, parent, rightInternal, h);
      PartsCells(mem, c.up, told, kids, multiset{parent} + multiset{rightInternal}, parent);
      var grandparent := mem[parent].parent;
      assert multiset{} + multiset{parent} + multiset{rightInternal} == multiset{parent} + multiset{rightInternal};
      PutBoth(parent, keys[..middle], children[..middle + 1], k1,
              rightInternal, keys[middle + 1..], children[middle + 1..], k2, c.up, told, kids, multiset{});
      SetParent(rightInternal, grandparent, c.up, told, t1, t2);
      PartsCloseSplit(mem, c.up, told, t1, t2);
    }

    method SetParent(p: Ptr, parent: Ptr, ghost c: Ctx, ghost told: Tree, ghost t1: Tree, ghost t2: Tree)
      requires Parts(mem, c, told, [t1, t2], multiset{}) && t1.id == told.id && t2.id == p
      modifies this`mem
      ensures mem.Keys == old(mem.Keys)
      ensures Parts(mem, c, told, [t1, t2], multiset{})
      ensures SepCtx(old(mem), c, told) ==> SepCtx(mem, c, told)
    {
      ghost var m := mem;
      assert Rep(mem, [t1, t2][1]);
      mem := mem[p := mem[p].(parent := parent)];
      PartsReparent(m, mem, c, told, t1, t2);
    }

    /** Two `put_inner` in a row: the forest becomes two trees. */
    method PutBoth(a: Ptr, ka: seq<U64>, ca: seq<Ptr>, ghost ta: seq<Tree>,
                   b: Ptr, kb: seq<U64>, cb: seq<Ptr>, ghost tb: seq<Tree>,
                   ghost c: Ctx, ghost told: Tree, ghost kids: seq<Tree>, ghost rest: multiset<Ptr>)
      requires Parts(mem, c, told, kids, rest + multiset{a} + multiset{b}) && kids == ta + tb && a != 0 && b != 0
      requires told.id in rest + multiset{a}
      requires KeysFor(ka, ta) && KeysFor(kb, tb) && |ka| <= 3 && |kb| <= 3
      requires |ca| == |ta| && forall i | 0 <= i < |ta| :: ca[i] == ta[i].id
      requires |cb| == |tb| && forall i | 0 <= i < |tb| :: cb[i] == tb[i].id
      modifies this`mem
      ensures mem.Keys == old(mem.Keys)
      ensures Parts(mem, c, told, [Inner(a, ta), Inner(b, tb)], rest)
      ensures SepCtx(old(mem), c, told) ==> SepCtx(mem, c, told)
    {
      ghost var tta, ttb := Inner(a, ta), Inner(b, tb);
      PutPart(a, ka, ca, c, told, kids, [], ta, tb, [tta] + tb, rest + multiset{a} + multiset{b}, rest + multiset{b});
      assert IsRoot([tta], a) by {
        assert [tta][0].id == a;
      }
      PutPart(b, kb, cb, c, told, [tta] + tb, [tta], tb, [], [tta, ttb], rest + multiset{b}, rest);
    }

    /** `put_inner` as a step of reassembling a forest. */
    method PutPart(p: Ptr, keys: seq<U64>, children: seq<Ptr>, ghost c: Ctx, ghost told: Tree,
                   ghost ts: seq<Tree>, ghost a: seq<Tree>, ghost s: seq<Tree>, ghost b: seq<Tree>,
                   ghost ts': seq<Tree>,
                   ghost rest: multiset<Ptr>, ghost rest': multiset<Ptr>)
      requires Parts(mem, c, told, ts, rest) && ts == a + s + b && ts' == a + [Inner(p, s)] + b
      requires rest == rest' + multiset{p} && p != 0 && (told.id in rest || IsRoot(a, told.id))
      requires KeysFor(keys, s) && |keys| <= 3 && |children| == |s|
      requires forall i | 0 <= i < |s| :: children[i] == s[i].id
      modifies this`mem
      ensures mem.Keys == old(mem.Keys)
      ensures Parts(mem, c, told, ts', rest')
      ensures SepCtx(old(mem), c, told) ==> SepCtx(mem, c, told)
    {
      PartsCells(mem, c, told, ts, rest, p);
      PartsToldApart(mem, c, told, a, s, b, rest);
      ghost var m := mem;
      MiddleOf(ts, a, s, b);
      PutInner(p, keys, children, s);
      PartsPutAs(m, mem, c, told, ts, a, s, b, ts', rest, rest', p, keys);
    }

    /** A full root hands its children to two fresh nodes. */
    method SplitRoot(parent: Ptr, keys: seq<U64>, children: seq<Ptr>, rightInternal: Ptr,
                     ghost c: Ctx, ghost told: Tree, ghost kids: seq<Tree>, ghost h: nat) returns (ok: bool)
      requires Backed() && !oom
      requires c.Frame? && c.up.Top? && parent == c.id == told.id == root && parent != 0 && rightInternal != 0
      requires Parts(mem, Top, told, kids, multiset{parent} + multiset{rightInternal}) && SepCtx(mem, Top, told)
      requires KeysFor(keys, kids) && |keys| == 4 && |children| == |kids| && ShapedF(kids, h)
      requires forall i | 0 <= i < |kids| :: children[i] == kids[i].id
      requires Min(told) == Min(kids[0])
      modifies this, heap
      ensures Backed() && Foreign() == old(Foreign()) && Budget() == old(Budget())
      ensures ok == !oom && (ok <==> old(Room()) >= 1) && Room() == if ok then old(Room()) - 1 else 0
      ensures !oom ==> Shapely() && Entries(tree) == EntriesF(kids)
    {
      hide Parts, SepCtx, Shaped, ShapedF, KeysFor, Built, RootShaped, Entries, EntriesF, Min;
      hide KernelHeap.WellFormed, KernelHeap.Linked, KernelHeap.Live, KernelHeap.Room;
      var leftInternal := CreateLoose(Top, told, kids, multiset{parent} + multiset{rightInternal});
      if leftInternal == 0 {
        return false;
      }
      FillRoot(keys, children, leftInternal, rightInternal, told, kids, h);
      ok := true;
    }

    /** The children of the root go to the two fresh nodes. */
    method FillRoot(keys: seq<U64>, children: seq<Ptr>, leftInternal: Ptr, rightInternal: Ptr,
                    ghost told: Tree, ghost kids: seq<Tree>, ghost h: nat)
      requires told.id == root != 0 && leftInternal != 0 && rightInternal != 0
      requires Parts(mem, Top, told, kids, multiset{root} + multiset{rightInternal} + multiset{leftInternal})
      requires SepCtx(mem, Top, told)
      requires KeysFor(keys, kids) && |keys| == 4 && |children| == |kids| && ShapedF(kids, h)
      requires forall i | 0 <= i < |kids| :: children[i] == kids[i].id
      modifies this`mem, this`tree, this`height
      ensures mem.Keys == old(mem.Keys) && Shapely() && Entries(tree) == EntriesF(kids)
    {
      hide Rep, Reps, RepF, Loose, Parts, SepCtx, InHole, Built, Min, EntriesF, Entries;
      var middle := |keys| / 2;
      ghost var ta, tb := Inner(leftInternal, kids[..3]), Inner(rightInternal, kids[3..]);
      assert multiset{root} + multiset{rightInternal} + multiset{leftInternal}
          == multiset{root} + multiset{leftInternal} + multiset{rightInternal};
      PutBoth(leftInternal, keys[..middle], children[..middle + 1], kids[..3],
              rightInternal, keys[middle + 1..], children[middle + 1..], kids[3..], Top, told, kids, multiset{root});
      MinOfTail(keys, kids, 3, rightInternal);
      WriteRoot(keys[middle], leftInternal, rightInternal, told, ta, tb, h + 1);
      RootSplitEntries(kids[..3], kids[3..], leftInternal, rightInternal, root);
      assert kids[..3] + kids[3..] == kids;
    }

    /** The root becomes an inner node over `left` and `right`. */
    method WriteRoot(separator: U64, left: Ptr, right: Ptr, ghost told: Tree, ghost ta: Tree, ghost tb: Tree,
        ghost h: nat)
      requires Parts(mem, Top, told, [ta, tb], multiset{root}) && told.id == root && root != 0
      requires left == ta.id && right == tb.id && separator == Min(tb) && Shaped(ta, h) && Shaped(tb, h)
      modifies this`mem, this`tree, this`height
      ensures mem.Keys == old(mem.Keys)
      ensures Shapely() && tree == Inner(root, [ta, tb])
    {
      hide Parts, SepCtx, Built, InHole, Rep;
      ghost var m := mem;
      ghost var t := Inner(root, [ta, tb]);
      PartsCells(mem, Top, told, [ta, tb], multiset{root}, root);
      assert [ta, tb][0] == ta && [ta, tb][1] == tb;
      PartsTop(mem, told, [ta, tb], multiset{root});
      WriteRootCells(separator, left, right, ta, tb);
      assert Parts(mem, Top, told, [t], multiset{}) && SepCtx(mem, Top, told) by {
        PartsPutAs(m, mem, Top, told, [ta, tb], [], [ta, tb], [], [t], multiset{root}, multiset{}, root, [separator]);
      }
      PartsTop(mem, told, [t], multiset{});
      PartsClose(mem, Top, told, t);
      InHoleBuilt(mem, Top, t);
      tree, height := t, h + 1;
    }

    method WriteRootCells(separator: U64, left: Ptr, right: Ptr, ghost ta: Tree, ghost tb: Tree)
      requires root in mem && left in mem && right in mem && left != root && right != root
      requires left == ta.id && right == tb.id && mem[root].parent == 0
      modifies this`mem
      ensures InnerWritten(old(mem), mem, root, [separator], [ta, tb])
    {
      hide IsRoot;
      WriteRootCell(separator, left, right);
      mem := mem[left := mem[left].(parent := root)];
      mem := mem[right := mem[right].(parent := root)];
      RootsOfTwo(ta, tb);
    }

    method WriteRootCell(separator: U64, left: Ptr, right: Ptr)
      requires root in mem && mem[root].parent == 0
      modifies this`mem
      ensures root in mem && mem == old(mem)[root := mem[root]]
      ensures !mem[root].leaf && mem[root].dataNum == 1 && mem[root].parent == 0 && mem[root].fnv[0] == separator
      ensures mem[root].child[0] == left && mem[root].child[1] == right
    {
      mem := mem[root := BLANK];
      var fnv, child := mem[root].fnv[0 := separator], mem[root].child[0 := left][1 := right];
      mem := mem[root := mem[root].(leaf := false, dataNum := 1, fnv := fnv, child := child)];
    }

    /** The parent has room for one more child. */
    method Absorb(parent: Ptr, keys: seq<U64>, children: seq<Ptr>, ghost c: Ctx, ghost told: Tree,
        ghost kids: seq<Tree>, ghost h: nat)
      requires c.Frame? && parent == c.id && told.id == c.id
      requires Parts(mem, c.up, told, kids, multiset{parent}) && SepCtx(mem, c.up, told)
      requires KeysFor(keys, kids) && |keys| <= 3 && |children| == |kids|
      requires forall i | 0 <= i < |kids| :: children[i] == kids[i].id
      requires CtxShaped(c.up, h + 1) && Shaped(Inner(parent, kids), h + 1) && Plug(c.up, told).id == root
      requires Min(told) == Min(Inner(parent, kids)) && parent != 0
      modifies this`mem, this`tree, this`height
      ensures mem.Keys == old(mem.Keys) && Shapely()
      ensures Entries(tree) == EntriesBefore(c.up) + EntriesF(kids) + EntriesAfter(c.up)
    {
      hide Rep, Reps, RepF, RepCtx, SepCtx, LeavesF;
      ghost var t := Inner(parent, kids);
      PutPart(parent, keys, children, c.up, told, kids, [], kids, [], [t], multiset{parent}, multiset{});
      PartsClose(mem, c.up, told, t);
      InHoleBuilt(mem, c.up, t);
      PlugShaped(c.up, t, h + 1);
      PlugParts(c.up, t);
      OutermostSame(c.up, told, t);
      tree, height := Plug(c.up, t), h + 1 + CtxDepth(c.up);
    }

    // ----- deleting: repairing separators -----

    /** `min_key`. */
    method MinKey(p: Ptr, ghost t0: Tree, ghost h0: nat) returns (k: U64)
      requires Rep(mem, t0) && Shaped(t0, h0) && p == t0.id
      ensures k == Min(t0)
    {
      var node := p;
      ghost var t := t0;
      ghost var h := h0;
      while !mem[node].leaf
        invariant Rep(mem, t) && Shaped(t, h) && node == t.id && Min(t) == Min(t0)
        decreases h
      {
        assert mem[node].child[0] == t.kids[0].id;
        node := mem[node].child[0];
        t, h := t.kids[0], h - 1;
      }
      assert Slot(mem[node], 0) == t.es[0];
      k := mem[node].fnv[0];
    }

    /** `fix_keys`: the separators of one node become exact. */
    method FixKeys(node: Ptr, ghost t: Tree, ghost h: nat)
      requires Loose(mem, t) && t.id == node && ShapedF(t.kids, h) && Ids(t) <= multiset(mem.Keys)
      modifies this`mem
      ensures KeysRewritten(old(mem), mem, node) && Rep(mem, t)
    {
      ghost var m := mem;
      var index := 0;
      while index < mem[node].dataNum
        invariant index <= |t.kids| - 1 && KeysRewritten(m, mem, node) && Loose(mem, t)
        invariant forall i | 0 <= i < index :: mem[node].fnv[i] == Min(t.kids[i + 1])
      {
        assert mem[node].child[index + 1] == t.kids[index + 1].id;
        var k := MinKey(mem[node].child[index + 1], t.kids[index + 1], h);
        mem := mem[node := mem[node].(fnv := mem[node].fnv[index := k])];
        KeysRep(m, mem, t);
        index := index + 1;
      }
      KeysRep(m, mem, t);
    }

    /** One round of `fix_up`. */
    method FixLevel(node: Ptr, ghost c: Ctx, ghost t: Tree, ghost h: nat)
      requires LooseInHole(mem, c, t) && t.Inner? && t.id == node && Shaped(t, h)
      modifies this`mem
      ensures mem.Keys == old(mem.Keys) && LooseInHole(mem, c, t) && Rep(mem, t)
    {
      ghost var m := mem;
      FixKeys(node, t, h - 1);
      KeysInHole(m, mem, c, t);
    }

    /** `fix_up`: the separators of a node and of all its ancestors become exact. */
    method FixUp(p: Ptr, ghost c0: Ctx, ghost t0: Tree, ghost h0: nat)
      requires LooseInHole(mem, c0, t0) && t0.Inner? && t0.id == p
      requires Shaped(t0, h0) && CtxShaped(c0, h0) && Plug(c0, t0).id == root
      modifies this`mem, this`tree, this`height
      ensures mem.Keys == old(mem.Keys) && Shapely()
      ensures Entries(tree) == EntriesBefore(c0) + Entries(t0) + EntriesAfter(c0)
    {
      hide IdsF, LeavesF, EntriesF;
      ghost var c, t, h := c0, t0, h0;
      ghost var done := false;
      var node := p;
      while node != 0
        invariant mem.Keys == old(mem.Keys) && Plug(c, t) == Plug(c0, t0)
        invariant if done then node == 0 && c.Top? && Built(mem, t) else
          LooseInHole(mem, c, t) && t.Inner? && t.id == node && node != 0
        invariant Shaped(t, h) && CtxShaped(c, h)
        decreases c, !done
      {
        if !mem[node].leaf {
          FixLevel(node, c, t, h);
        }
        node := mem[node].parent;
        if c.Top? {
          LooseDone(mem, t);
          done := true;
        } else {
          Climb(mem, c, t);
          ClimbShape(c, t, h);
          c, t, h := c.up, Inner(c.id, c.left + [t] + c.right), h + 1;
        }
      }
      PlugParts(c0, t0);
      tree, height := t, h;
    }

    // ----- deleting: leaves -----

    /** The loop that closes the gap in a leaf. */
    method RemoveFromLeaf(leaf: Ptr, position: nat, ghost es: seq<Entry>)
      requires leaf in mem && LeafIs(mem[leaf], es) && position < |es|
      modifies this`mem
      ensures LeafRewritten(old(mem), mem, leaf, RemoveAt(es, position))
    {
      var index := position;
      while index < mem[leaf].dataNum - 1
        invariant position <= index <= |es| - 1 && leaf in mem && mem == old(mem)[leaf := mem[leaf]]
        invariant mem[leaf].leaf && mem[leaf].dataNum == |es|
        invariant mem[leaf].parent == old(mem[leaf].parent) && mem[leaf].next == old(mem[leaf].next)
        invariant forall i | 0 <= i < position :: Slot(mem[leaf], i) == es[i]
        invariant forall i | position < i <= index :: Slot(mem[leaf], i - 1) == es[i]
        invariant forall i | index < i < |es| :: Slot(mem[leaf], i) == es[i]
      {
        mem := mem[leaf := WithSlot(mem[leaf], index, Slot(mem[leaf], index + 1))];
        index := index + 1;
      }
      mem := mem[leaf := mem[leaf].(dataNum := mem[leaf].dataNum - 1)];
      ghost var es' := RemoveAt(es, position);
      forall i | 0 <= i < |es'|
        ensures Slot(mem[leaf], i) == es'[i]
      {
        if i >= position {
          assert es'[i] == es[i + 1] && Slot(mem[leaf], i + 1 - 1) == es[i + 1];
        }
      }
    }

    /** The last entry of the left leaf moves to the front of the right leaf. */
    method BorrowLast(left: Ptr, leaf: Ptr, ghost ex: seq<Entry>, ghost ey: seq<Entry>)
      requires left in mem && leaf in mem && left != leaf
      requires LeafIs(mem[left], ex) && LeafIs(mem[leaf], ey) && |ex| > 0 && |ey| < 3
      modifies this`mem
      ensures TwoLeaves(old(mem), mem, left, ex[..|ex| - 1], leaf, [ex[|ex| - 1]] + ey)
    {
      var last := mem[left].dataNum - 1;
      assert Slot(mem[left], last) == ex[last];
      InsertInLeaf(leaf, 0, Slot(mem[left], last), ey);
      assert InsertAt(ey, 0, ex[last]) == [ex[last]] + ey;
      mem := mem[left := mem[left].(dataNum := mem[left].dataNum - 1)];
      assert forall i | 0 <= i < last :: Slot(mem[left], i) == ex[i];
    }

    /** The first entry of the right leaf moves to the end of the left leaf. */
    method BorrowFirst(leaf: Ptr, right: Ptr, ghost ex: seq<Entry>, ghost ey: seq<Entry>)
      requires leaf in mem && right in mem && leaf != right
      requires LeafIs(mem[leaf], ex) && LeafIs(mem[right], ey) && |ex| < 3 && |ey| > 0
      modifies this`mem
      ensures TwoLeaves(old(mem), mem, leaf, ex + [ey[0]], right, ey[1..])
    {
      var appendIndex := mem[leaf].dataNum;
      assert Slot(mem[right], 0) == ey[0];
      mem := mem[leaf := WithSlot(mem[leaf], appendIndex, Slot(mem[right], 0))];
      mem := mem[leaf := mem[leaf].(dataNum := mem[leaf].dataNum + 1)];
      assert forall i | 0 <= i < |ex| :: Slot(mem[leaf], i) == ex[i];
      RemoveFromLeaf(right, 0, ey);
      assert RemoveAt(ey, 0) == ey[1..];
    }

    /** The entries of the right leaf are appended to the left leaf, which takes over its place in the chain. */
    method MergeLeaves(left: Ptr, right: Ptr, ghost ex: seq<Entry>, ghost ey: seq<Entry>)
      requires left in mem && right in mem && left != right
      requires LeafIs(mem[left], ex) && LeafIs(mem[right], ey) && |ex| + |ey| <= 3
      modifies this`mem
      ensures left in mem && mem == old(mem)[left := mem[left]] && LeafIs(mem[left], ex + ey)
      ensures mem[left].parent == old(mem[left].parent) && mem[left].next == old(mem[right].next)
    {
      var item := 0;
      while item < mem[right].dataNum
        invariant item <= |ey| && left in mem && mem == old(mem)[left := mem[left]]
        invariant mem[left].leaf && mem[left].dataNum == |ex| && mem[left].parent == old(mem[left].parent)
        invariant forall i | 0 <= i < |ex| + item :: Slot(mem[left], i) == (ex + ey)[i]
      {
        var target := mem[left].dataNum + item;
        assert Slot(mem[right], item) == ey[item] == (ex + ey)[target];
        mem := mem[left := WithSlot(mem[left], target, Slot(mem[right], item))];
        item := item + 1;
      }
      mem := mem[left := mem[left].(dataNum := mem[left].dataNum + mem[right].dataNum)];
      mem := mem[left := mem[left].(next := mem[right].next)];
    }

    /** `drop_child`: the parent forgets the child behind `x`; its keys are left to `fix_keys`. */
    method DropChild(parent: Ptr, childIndex: nat, ghost a: seq<Tree>, ghost x: Tree, ghost y: Tree, ghost b: seq<Tree>)
      requires parent in mem && InnerIs(mem[parent], Pair(a, x, y, b)) && childIndex == |a| + 1
      modifies this`mem
      ensures parent in mem && mem == old(mem)[parent := mem[parent]]
      ensures InnerIs(mem[parent], a + [x] + b)
      ensures mem[parent].parent == old(mem[parent].parent)
    {
      ghost var n := mem[parent];
      var oldKeyCount := mem[parent].dataNum;
      var index := if childIndex > 0 then childIndex - 1 else 0;
      while index < oldKeyCount - 1
        invariant parent in mem && mem == old(mem)[parent := n.(fnv := mem[parent].fnv)]
      {
        mem := mem[parent := mem[parent].(fnv := mem[parent].fnv[index := mem[parent].fnv[index + 1]])];
        index := index + 1;
      }
      ShiftChildren(parent, childIndex);
      mem := mem[parent := mem[parent].(dataNum := mem[parent].dataNum - 1)];
      mem := mem[parent := mem[parent].(child := mem[parent].child[oldKeyCount := 0])];
      DroppedChildren(n, mem[parent], a, x, y, b);
    }

    /** Children behind `childIndex` move one place to the left. */
    method ShiftChildren(parent: Ptr, childIndex: nat)
      requires parent in mem && childIndex <= mem[parent].dataNum
      modifies this`mem
      ensures parent in mem && mem == old(mem)[parent := old(mem[parent]).(child := mem[parent].child)]
      ensures forall i | 0 <= i < childIndex :: mem[parent].child[i] == old(mem[parent]).child[i]
      ensures forall i | childIndex < i <= old(mem[parent]).dataNum ::
        mem[parent].child[i - 1] == old(mem[parent]).child[i]
    {
      ghost var n := mem[parent];
      var index := childIndex;
      while index < mem[parent].dataNum
        invariant childIndex <= index <= n.dataNum && parent in mem
        invariant mem == old(mem)[parent := n.(child := mem[parent].child)]
        invariant forall i | 0 <= i < childIndex :: mem[parent].child[i] == n.child[i]
        invariant forall i | childIndex < i <= index :: mem[parent].child[i - 1] == n.child[i]
        invariant forall i | index <= i < 4 :: mem[parent].child[i] == n.child[i]
      {
        mem := mem[parent := mem[parent].(child := mem[parent].child[index := mem[parent].child[index + 1]])];
        index := index + 1;
      }
    }

    /** `child_idx`: the position of a node among the children of its parent. */
    method ChildIdx(parent: Ptr, child: Ptr, ghost c: Ctx, ghost t: Tree) returns (index: nat)
      requires c.Frame? && c.id == parent && t.id == child
      requires RepCtx(mem, c, t) && CtxIds(c) + Ids(t) <= multiset(mem.Keys)
      ensures index == |c.left| <= mem[parent].dataNum
      ensures index > 0 ==> mem[parent].child[index - 1] == c.left[index - 1].id != 0
      ensures index == 0 <==> c.left == []
      ensures index < mem[parent].dataNum ==> mem[parent].child[index + 1] == c.right[0].id != 0
      ensures index < mem[parent].dataNum <==> c.right != []
    {
      index := FindChild(parent, child, c, t);
      ghost var kids := c.left + [t] + c.right;
      assert index > 0 ==> kids[index - 1] == c.left[index - 1] && Rep(mem, c.left[index - 1]);
      assert c.right != [] ==> kids[index + 1] == c.right[0] && Rep(mem, c.right[0]);
    }

    /** `balance_leaf`: restores the shape after one entry was taken from a leaf. */
    method BalanceLeaf(leaf: Ptr, ghost c: Ctx, ghost es: seq<Entry>)
      requires Backed() && LooseInHole(mem, c, Leaf(leaf, es)) && CtxShaped(c, 0) && Plug(c, Leaf(leaf, es)).id == root
      requires |es| <= 3 && (c.Frame? ==> |es| >= 1)
      modifies this`mem, this`tree, this`height, heap
      ensures Backed() && Foreign() == old(Foreign()) && Shapely()
      ensures Budget() >= old(Budget()) && mem.Keys <= old(mem.Keys)
      ensures Entries(tree) == EntriesBefore(c) + es + EntriesAfter(c)
    {
      ghost var t := Leaf(leaf, es);
      LooseRootIffTop(mem, c, t, root);
      if leaf == root {
        LooseDone(mem, t);
        tree, height := t, 0;
        return;
      }
      var parent := mem[leaf].parent;
      if mem[leaf].dataNum >= MAX_BPT_NODE_NUM / 2 {
        Climb(mem, c, t);
        ClimbShape(c, t, 0);
        HoleEntries(c, t);
        FixUp(parent, c.up, Filled(c, t), 1);
        return;
      }
      HoleEntries(c, t);
      ShareLeaf(parent, leaf, c, t);
    }

    /** An underfull leaf borrows from a neighbour or is merged with one. */
    method ShareLeaf(parent: Ptr, leaf: Ptr, ghost c: Ctx, ghost t: Tree)
      requires Backed() && LooseInHole(mem, c, t) && c.Frame? && CtxShaped(c, 0) && Plug(c, t).id == root
      requires c.id == parent && t.Leaf? && t.id == leaf && |t.es| == 1
      modifies this`mem, this`tree, this`height, heap
      ensures Backed() && Foreign() == old(Foreign()) && Shapely()
      ensures Budget() >= old(Budget()) && mem.Keys <= old(mem.Keys)
      ensures Entries(tree) == EntriesBefore(c.up) + Entries(Filled(c, t)) + EntriesAfter(c.up)
    {
      hide IdsF, LeavesF, EntriesF;
      var index := ChildIdx(parent, leaf, c, t);
      var left := if index > 0 then mem[parent].child[index - 1] else 0;
      var right := if index < mem[parent].dataNum then mem[parent].child[index + 1] else 0;
      assert left != 0 ==> var x := c.left[|c.left| - 1]; Shaped(x, 0) && Rep(mem, x);
      assert right != 0 ==> Shaped(c.right[0], 0) && Rep(mem, c.right[0]);
      if left != 0 && mem[left].dataNum > MAX_BPT_NODE_NUM / 2 {
        LeafFromLeft(parent, left, leaf, c, t);
      } else if right != 0 && mem[right].dataNum > MAX_BPT_NODE_NUM / 2 {
        LeafFromRight(parent, leaf, right, c, t);
      } else if left != 0 {
        LeafIntoLeft(parent, index, left, leaf, c, t);
      } else {
        assert right != 0;  // a node below the root has a neighbour
        RightIntoLeaf(parent, index, leaf, right, c, t);
      }
    }

    /** The left neighbour gives its last entry. */
    method LeafFromLeft(parent: Ptr, left: Ptr, leaf: Ptr, ghost c: Ctx, ghost t: Tree)
      requires LooseInHole(mem, c, t) && c.Frame? && CtxShaped(c, 0) && Plug(c, t).id == root
      requires c.id == parent && t.Leaf? && t.id == leaf && |t.es| == 1
      requires c.left != [] && left == c.left[|c.left| - 1].id && left in mem && mem[left].dataNum > 2
      modifies this`mem, this`tree, this`height
      ensures mem.Keys == old(mem.Keys) && Shapely()
      ensures Entries(tree) == EntriesBefore(c.up) + Entries(Filled(c, t)) + EntriesAfter(c.up)
    {
      hide IdsF, LeavesF, EntriesF;
      ghost var n := |c.left| - 1;
      ghost var a, x, b := c.left[..n], c.left[n], c.right;
      ghost var m := mem;
      OpenLeft(mem, c, t);
      PairApart(mem, c.up, parent, a, x, t, b);
      assert Shaped(x, 0) && Rep(mem, x);
      BorrowLast(left, leaf, x.es, t.es);
      ghost var x', t' := Leaf(left, x.es[..|x.es| - 1]), Leaf(leaf, [x.es[|x.es| - 1]] + t.es);
      LeavesBorrowed(m, mem, c.up, parent, a, x, t, b, x'.es, t'.es);
      assert x'.es + t'.es == x.es + t.es;
      PairEntries(parent, a, x, t, b);
      PairEntries(parent, a, x', t', b);
      OutermostSame(c.up, Filled(c, t), Inner(parent, Pair(a, x', t', b)));
      PairShaped(parent, a, x', t', b, 0);
      FixUp(parent, c.up, Inner(parent, Pair(a, x', t', b)), 1);
    }

    /** The right neighbour gives its first entry. */
    method LeafFromRight(parent: Ptr, leaf: Ptr, right: Ptr, ghost c: Ctx, ghost t: Tree)
      requires LooseInHole(mem, c, t) && c.Frame? && CtxShaped(c, 0) && Plug(c, t).id == root
      requires c.id == parent && t.Leaf? && t.id == leaf && |t.es| == 1
      requires c.right != [] && right == c.right[0].id && right in mem && mem[right].dataNum > 2
      modifies this`mem, this`tree, this`height
      ensures mem.Keys == old(mem.Keys) && Shapely()
      ensures Entries(tree) == EntriesBefore(c.up) + Entries(Filled(c, t)) + EntriesAfter(c.up)
    {
      hide IdsF, LeavesF, EntriesF;
      ghost var a, y, b := c.left, c.right[0], c.right[1..];
      ghost var m := mem;
      OpenRight(mem, c, t);
      PairApart(mem, c.up, parent, a, t, y, b);
      assert Shaped(y, 0) && Rep(mem, y);
      BorrowFirst(leaf, right, t.es, y.es);
      ghost var t', y' := Leaf(leaf, t.es + [y.es[0]]), Leaf(right, y.es[1..]);
      LeavesBorrowed(m, mem, c.up, parent, a, t, y, b, t'.es, y'.es);
      assert t'.es + y'.es == t.es + y.es;
      PairEntries(parent, a, t, y, b);
      PairEntries(parent, a, t', y', b);
      OutermostSame(c.up, Filled(c, t), Inner(parent, Pair(a, t', y', b)));
      PairShaped(parent, a, t', y', b, 0);
      FixUp(parent, c.up, Inner(parent, Pair(a, t', y', b)), 1);
    }

    /** The leaf is merged into its left neighbour. */
    method LeafIntoLeft(parent: Ptr, index: nat, left: Ptr, leaf: Ptr, ghost c: Ctx, ghost t: Tree)
      requires Backed() && LooseInHole(mem, c, t) && c.Frame? && CtxShaped(c, 0) && Plug(c, t).id == root
      requires c.id == parent && t.Leaf? && t.id == leaf && |t.es| == 1 && index == |c.left|
      requires c.left != [] && left == c.left[|c.left| - 1].id && left in mem && mem[left].dataNum <= 2
      modifies this`mem, this`tree, this`height, heap
      ensures Backed() && Foreign() == old(Foreign()) && Shapely()
      ensures Budget() >= old(Budget()) && mem.Keys <= old(mem.Keys)
      ensures Entries(tree) == EntriesBefore(c.up) + Entries(Filled(c, t)) + EntriesAfter(c.up)
    {
      hide IdsF, LeavesF, EntriesF;
      ghost var n := |c.left| - 1;
      ghost var a, x, b := c.left[..n], c.left[n], c.right;
      OpenLeft(mem, c, t);
      assert Shaped(x, 0) && Rep(mem, x);
      MergeLeafPair(parent, index, left, leaf, c.up, a, x, t, b);
      ghost var x' := Leaf(left, x.es + t.es);
      MergedShaped(parent, a, x', b, 0);
      PairEntries(parent, a, x, t, b);
      ForestSplit(a, x', b);
      OutermostSame(c.up, Filled(c, t), Inner(parent, a + [x'] + b));
      BalanceInner(parent, c.up, Inner(parent, a + [x'] + b), 0);
    }

    /** The right neighbour is merged into the leaf. */
    method RightIntoLeaf(parent: Ptr, index: nat, leaf: Ptr, right: Ptr, ghost c: Ctx, ghost t: Tree)
      requires Backed() && LooseInHole(mem, c, t) && c.Frame? && CtxShaped(c, 0) && Plug(c, t).id == root
      requires c.id == parent && t.Leaf? && t.id == leaf && |t.es| == 1 && index == |c.left|
      requires c.right != [] && right == c.right[0].id && right in mem && mem[right].dataNum <= 2
      modifies this`mem, this`tree, this`height, heap
      ensures Backed() && Foreign() == old(Foreign()) && Shapely()
      ensures Budget() >= old(Budget()) && mem.Keys <= old(mem.Keys)
      ensures Entries(tree) == EntriesBefore(c.up) + Entries(Filled(c, t)) + EntriesAfter(c.up)
    {
      hide IdsF, LeavesF, EntriesF;
      ghost var a, y, b := c.left, c.right[0], c.right[1..];
      OpenRight(mem, c, t);
      assert Shaped(y, 0) && Rep(mem, y);
      MergeLeafPair(parent, index + 1, leaf, right, c.up, a, t, y, b);
      ghost var t' := Leaf(leaf, t.es + y.es);
      MergedShaped(parent, a, t', b, 0);
      PairEntries(parent, a, t, y, b);
      ForestSplit(a, t', b);
      OutermostSame(c.up, Filled(c, t), Inner(parent, a + [t'] + b));
      BalanceInner(parent, c.up, Inner(parent, a + [t'] + b), 0);
    }

    /** Merging two leaves, dropping the right one from the parent and returning it to the heap. */
    method MergeLeafPair(parent: Ptr, childIndex: nat, left: Ptr, right: Ptr,
                         ghost c: Ctx, ghost a: seq<Tree>, ghost x: Tree, ghost y: Tree, ghost b: seq<Tree>)
      requires Backed() && PairOpen(mem, c, parent, a, x, y, b) && x.Leaf? && y.Leaf? && x.id == left && y.id == right
      requires |x.es| + |y.es| <= 3 && childIndex == |a| + 1
      modifies this`mem, heap
      ensures Backed() && Foreign() == old(Foreign()) && Budget() >= old(Budget()) && mem.Keys <= old(mem.Keys)
      ensures LooseInHole(mem, c, Inner(parent, a + [Leaf(left, x.es + y.es)] + b))
    {
      hide Ids, IdsF, RepF, Pair, Owns, Chain;
      hide KernelHeap.WellFormed, KernelHeap.Linked, KernelHeap.Live, KernelHeap.Room;
      ghost var m := mem;
      PairApart(mem, c, parent, a, x, y, b);
      MergeLeaves(left, right, x.es, y.es);
      DropChild(parent, childIndex, a, x, y, b);
      MergedInnerIs(mem[parent], a, x, Leaf(left, x.es + y.es), b);
      FreeNode(right);
      LeavesMerged(m, mem, c, parent, a, x, y, b, x.es + y.es);
    }

    // ----- deleting -----

    /** `bpt_delete`: succeeds exactly if both hashes match. */
    method Delete(name: Option<string>) returns (ok: bool)
      requires Usable()
      modifies this`mem, this`tree, this`height, heap
      ensures Usable()
      ensures ok <==>
        root != 0 && name.Some? && fnv1a(name.value) in old(Contents()) &&
        old(Contents())[fnv1a(name.value)].0 == djb2(name.value)
      ensures Contents() == if ok then old(Contents()) - {fnv1a(name.value)} else old(Contents())
      ensures root != 0 ==> Foreign() == old(Foreign()) && Budget() >= old(Budget()) && mem.Keys <= old(mem.Keys)
      ensures !ok ==> mem == old(mem) && tree == old(tree) && height == old(height) && Room() == old(Room())
    {
      if root == 0 || name.None? {
        return false;
      }
      var f, d := fnv1a(name.value), djb2(name.value);
      var leaf, c, es := SearchLeaf(f);
      var position := FindEntry(leaf, f, d, es);
      if position == mem[leaf].dataNum {
        NotInLeaf(tree, c, leaf, es, f, d);
        return false;
      }
      FoundInLeaf(tree, c, leaf, es, position);
      RemovedContents(tree, c, leaf, es, position);
      RemoveAndBalance(leaf, position, c, es);
      ok := true;
    }

    /** The first entry with both hashes, or the number of entries. */
    method FindEntry(leaf: Ptr, f: U64, d: U64, ghost es: seq<Entry>) returns (position: nat)
      requires leaf in mem && LeafIs(mem[leaf], es)
      ensures position <= |es| && forall i | 0 <= i < position :: !(es[i].fnv == f && es[i].djb == d)
      ensures position < |es| ==> es[position].fnv == f && es[position].djb == d
    {
      position := 0;
      while position < mem[leaf].dataNum && (mem[leaf].fnv[position] != f || mem[leaf].djb[position] != d)
        invariant position <= |es| == mem[leaf].dataNum
        invariant forall i | 0 <= i < position :: !(es[i].fnv == f && es[i].djb == d)
      {
        assert Slot(mem[leaf], position) == es[position];
        position := position + 1;
      }
      if position < |es| {
        assert Slot(mem[leaf], position) == es[position];
      }
    }

    method RemoveAndBalance(leaf: Ptr, position: nat, ghost c: Ctx, ghost es: seq<Entry>)
      requires Backed() && InHole(mem, c, Leaf(leaf, es)) && CtxShaped(c, 0) && Plug(c, Leaf(leaf, es)).id == root
      requires position < |es| <= 3 && (c.Frame? ==> |es| >= 2)
      modifies this`mem, this`tree, this`height, heap
      ensures Backed() && Foreign() == old(Foreign()) && Shapely()
      ensures Budget() >= old(Budget()) && mem.Keys <= old(mem.Keys)
      ensures Entries(tree) == EntriesBefore(c) + RemoveAt(es, position) + EntriesAfter(c)
    {
      ghost var m := mem;
      ghost var es' := RemoveAt(es, position);
      RemoveFromLeaf(leaf, position, es);
      LeafLoosened(m, mem, c, leaf, es, es');
      OutermostSame(c, Leaf(leaf, es), Leaf(leaf, es'));
      BalanceLeaf(leaf, c, es');
    }

    // ----- deleting: inner nodes -----

    /** `balance_inner`: restores the shape after a node has lost a child; climbs on merges. */
    method BalanceInner(node: Ptr, ghost c: Ctx, ghost t: Tree, ghost h: nat)
      requires Backed() && LooseInHole(mem, c, t) && t.Inner? && t.id == node
      requires 1 <= |t.kids| <= 4 && ShapedF(t.kids, h) && CtxShaped(c, h + 1) && Plug(c, t).id == root
      modifies this`mem, this`tree, this`height, heap
      ensures Backed() && Foreign() == old(Foreign()) && Shapely()
      ensures Budget() >= old(Budget()) && mem.Keys <= old(mem.Keys)
      ensures Entries(tree) == EntriesBefore(c) + Entries(t) + EntriesAfter(c)
      decreases c, 1
    {
      hide Ids, IdsF, Leaves, LeavesF, EntriesF, Built, RootShaped;
      var minimumKeys := (MAX_BPT_NODE_NUM + 1) / 2 - 1;
      LooseRootIffTop(mem, c, t, root);
      if node == root {
        if !mem[root].leaf && mem[root].dataNum == 0 {
          CollapseRoot(t, h);
        } else {
          FixRoot(t, h);
        }
        return;
      }
      if mem[node].dataNum >= minimumKeys {
        FixUp(node, c, t, h + 1);
        return;
      }
      HoleEntries(c, t);
      ShareInner(mem[node].parent, node, c, t, h);
    }

    /** An underfull inner node borrows from a neighbour or is merged with one. */
    method ShareInner(parent: Ptr, node: Ptr, ghost c: Ctx, ghost t: Tree, ghost h: nat)
      requires Backed() && LooseInHole(mem, c, t) && c.Frame? && CtxShaped(c, h + 1) && Plug(c, t).id == root
      requires c.id == parent && t.Inner? && t.id == node && |t.kids| == 1 && ShapedF(t.kids, h)
      modifies this`mem, this`tree, this`height, heap
      ensures Backed() && Foreign() == old(Foreign()) && Shapely()
      ensures Budget() >= old(Budget()) && mem.Keys <= old(mem.Keys)
      ensures Entries(tree) == EntriesBefore(c.up) + Entries(Filled(c, t)) + EntriesAfter(c.up)
      decreases c, 0, 1
    {
      hide Ids, IdsF, Leaves, LeavesF, Entries, EntriesF;
      var minimumKeys := (MAX_BPT_NODE_NUM + 1) / 2 - 1;
      var index := ChildIdx(parent, node, c, t);
      var left := if index > 0 then mem[parent].child[index - 1] else 0;
      var right := if index < mem[parent].dataNum then mem[parent].child[index + 1] else 0;
      assert left != 0 ==> var x := c.left[|c.left| - 1]; Shaped(x, h + 1) && Rep(mem, x);
      assert right != 0 ==> Shaped(c.right[0], h + 1) && Rep(mem, c.right[0]);
      if left != 0 && mem[left].dataNum > minimumKeys {
        InnerFromLeft(parent, left, node, c, t, h);
      } else if right != 0 && mem[right].dataNum > minimumKeys {
        InnerFromRight(parent, node, right, c, t, h);
      } else if left != 0 {
        InnerIntoLeft(parent, index, left, node, c, t, h);
      } else {
        assert right != 0;  // a node below the root has a neighbour
        RightIntoInner(parent, index, node, right, c, t, h);
      }
    }

    /** The root still has two children: only its separators are repaired. */
    method FixRoot(ghost t: Tree, ghost h: nat)
      requires LooseInHole(mem, Top, t) && t.Inner? && t.id == root && ShapedF(t.kids, h) && 2 <= |t.kids| <= 4
      modifies this`mem, this`tree, this`height
      ensures mem.Keys == old(mem.Keys) && Shapely() && Entries(tree) == Entries(t)
    {
      ghost var m := mem;
      assert CtxIds(Top) + Ids(t) == Ids(t);
      FixKeys(root, t, h);
      KeysInHole(m, mem, Top, t);
      LooseDone(mem, t);
      tree, height := t, h + 1;
    }

    /** The root takes over its only child. */
    method CollapseRoot(ghost t: Tree, ghost h: nat)
      requires Backed() && LooseInHole(mem, Top, t) && t.Inner? && t.id == root && ShapedF(t.kids, h) && |t.kids| == 1
      modifies this`mem, this`tree, this`height, heap
      ensures Backed() && Foreign() == old(Foreign()) && Budget() >= old(Budget()) && mem.Keys <= old(mem.Keys)
      ensures Shapely() && Entries(tree) == Entries(t)
    {
      hide Ids, Leaves, Entries, IdsF, LeavesF, EntriesF, IsRoot, RootShaped, Built, LooseInHole, Rep, Rehung;
      hide KernelHeap.WellFormed, KernelHeap.Linked, KernelHeap.Live, KernelHeap.Taken, KernelHeap.Room;
      ghost var m := mem;
      ghost var k := t.kids[0];
      assert t.kids == [k];
      RootAndChild(mem, t, k);
      var onlyChild := mem[root].child[0];
      CopyToRoot(onlyChild, k);
      ghost var m1 := mem;
      FreeNode(onlyChild);
      CopiedAndFreed(m, m1, mem, root, k);
      RehungParts(k, root, h);
      tree, height := Rehung(k, root), h;
    }

    /** `*root = *only_child` and the parent links that follow from it. */
    method CopyToRoot(onlyChild: Ptr, ghost k: Tree)
      requires Rep(mem, k) && k.id == onlyChild && k.id != root && root in mem
      requires root !in Ids(k) && (k.Inner? ==> k.id !in IdsF(k.kids)) && Ids(k) <= multiset(mem.Keys)
      modifies this`mem
      ensures mem.Keys == old(mem.Keys) && mem[root] == old(mem[k.id]).(parent := 0)
      ensures forall p | p in old(mem) && p != root && p != k.id ::
        mem[p] == if k.Inner? && IsRoot(k.kids, p) then old(mem)[p].(parent := root) else old(mem)[p]
    {
      ghost var m := mem;
      mem := mem[root := mem[onlyChild]];
      mem := mem[root := mem[root].(parent := 0)];
      assert mem == m[root := m[k.id].(parent := 0)];
      if !mem[root].leaf {
        AdoptAll(k, m);
      }
    }

    /** The children of the copied node learn their new parent. */
    method AdoptAll(ghost k: Tree, ghost m: Mem)
      requires k.Inner? && Rep(m, k) && k.id != root && root in m && root !in IdsF(k.kids) && k.id !in IdsF(k.kids)
      requires mem == m[root := m[k.id].(parent := 0)] && IdsF(k.kids) <= multiset(m.Keys)
      modifies this`mem
      ensures mem.Keys == m.Keys && mem[root] == old(mem[root]) && mem[k.id] == old(mem[k.id])
      ensures forall p | p in m && p != root && p != k.id ::
        mem[p] == if IsRoot(k.kids, p) then m[p].(parent := root) else m[p]
    {
      hide Reparented, IsRoot, Rep, Reps, Ids, IdsF;
      var index := 0;
      OwnsDistinct(m, IdsF(k.kids));
      RepInner(m, k);
      assert k.kids[..0] == [];
      ReparentedNone(m, mem, root, k.id, root);
      while index <= mem[root].dataNum
        invariant index <= |k.kids| && mem.Keys == m.Keys && mem[root] == m[k.id].(parent := 0) && mem[k.id] == m[k.id]
        invariant Reparented(m, mem, root, k.id, k.kids[..index], root)
      {
        assert mem[root].child[index] == k.kids[index].id;
        IdsAt(k.kids, index);
        ghost var m1 := mem;
        mem := mem[mem[root].child[index] := mem[mem[root].child[index]].(parent := root)];
        ReparentedNext(m, m1, mem, root, k.id, k.kids, index, root);
        index := index + 1;
      }
      assert k.kids[..index] == k.kids;
      ReparentedMeans(m, mem, root, k.id, k.kids, root);
    }

    /** The last child of the left node becomes the first child of the right node. */
    method MoveLast(left: Ptr, node: Ptr, ghost x: Tree, ghost y: Tree)
      requires Loose(mem, x) && Loose(mem, y) && x.id == left && y.id == node
      requires Ids(x) + Ids(y) <= multiset(mem.Keys) && |x.kids| >= 2 && |y.kids| <= 3
      modifies this`mem
      ensures var n := |x.kids| - 1; Moved(old(mem), mem, left, x.kids[..n], node, [x.kids[n]] + y.kids)
    {
      hide Ids, IdsF, RepF, IsRoot;
      ghost var m := mem;
      ghost var n := |x.kids| - 1;
      ghost var mv := [x.kids[n]];
      assert x.kids == x.kids[..n] + mv;
      TwoApart(mem, x, y);
      assert mem[left].child[n] == x.kids[n].id;
      MoveLastCells(left, node);
      PushedKids(m[node], mem[node], x.kids[n], y.kids);
      RootOfOne(x.kids[n]);
      MovedRight(m, mem, x, x.kids[..n], y, mv + y.kids, mv);
    }

    method MoveLastCells(left: Ptr, node: Ptr)
      requires left in mem && node in mem && left != node && mem[left].dataNum >= 1 && mem[node].dataNum <= 2
      requires var p := mem[left].child[mem[left].dataNum]; p in mem && p != left && p != node
      modifies this`mem
      ensures node in mem
      ensures var n, k, p := old(mem[left]), old(mem[node]), old(mem[left].child[mem[left].dataNum]);
        mem == old(mem)[left := n.(dataNum := n.dataNum - 1, child := n.child[n.dataNum := 0])]
                       [node := k.(dataNum := k.dataNum + 1, child := mem[node].child)]
                       [p := old(mem[p]).(parent := node)]
      ensures mem[node].child[0] == old(mem[left].child[mem[left].dataNum])
      ensures forall i | 0 <= i <= old(mem[node]).dataNum :: mem[node].child[i + 1] == old(mem[node]).child[i]
    {
      ghost var n, k := mem[left], mem[node];
      var leftChildCount := mem[left].dataNum + 1;
      PutFront(node, mem[left].child[leftChildCount - 1]);
      Recount(left, node, leftChildCount - 1);
      ghost var p := n.child[n.dataNum];
      LastWriteCounts(old(mem), left, n.(dataNum := n.dataNum - 1, child := n.child[n.dataNum := 0]),
                      node, k.(child := mem[node].child), k.(dataNum := k.dataNum + 1, child := mem[node].child),
                      p, old(mem[p]).(parent := node));
    }

    /** The children of `node` make room at the front for `child`, which learns its new parent. */
    method PutFront(node: Ptr, child: Ptr)
      requires node in mem && child in mem && node != child && mem[node].dataNum <= 2
      modifies this`mem
      ensures node in mem && mem[node].child[0] == child
      ensures forall i | 0 <= i <= old(mem[node]).dataNum :: mem[node].child[i + 1] == old(mem[node]).child[i]
      ensures var n := old(mem[node]).(child := mem[node].child);
        mem == old(mem)[node := n][child := old(mem[child]).(parent := node)]
    {
      MakeFrontRoom(node);
      SetChild(node, 0, child);
    }

    method Recount(left: Ptr, node: Ptr, last: nat)
      requires left in mem && node in mem && left != node && last == mem[left].dataNum >= 1 && mem[node].dataNum <= 2
      modifies this`mem
      ensures node in mem && mem[node].child == old(mem[node]).child
      ensures var n, k := old(mem[left]), old(mem[node]);
        mem == old(mem)[left := n.(dataNum := n.dataNum - 1, child := n.child[n.dataNum := 0])]
                       [node := k.(dataNum := k.dataNum + 1)]
    {
      mem := mem[left := mem[left].(dataNum := mem[left].dataNum - 1)];
      mem := mem[node := mem[node].(dataNum := mem[node].dataNum + 1)];
      mem := mem[left := mem[left].(child := mem[left].child[last := 0])];
    }

    /** Children move one place to the right. */
    method MakeFrontRoom(node: Ptr)
      requires node in mem && mem[node].dataNum <= 2
      modifies this`mem
      ensures node in mem && mem == old(mem)[node := old(mem[node]).(child := mem[node].child)]
      ensures forall i | 0 <= i <= old(mem[node]).dataNum :: mem[node].child[i + 1] == old(mem[node]).child[i]
    {
      ghost var n := mem[node];
      var childIndex := mem[node].dataNum + 1;
      while childIndex > 0
        invariant 0 <= childIndex <= n.dataNum + 1 && node in mem
        invariant mem == old(mem)[node := n.(child := mem[node].child)]
        invariant forall i | childIndex <= i <= n.dataNum :: mem[node].child[i + 1] == n.child[i]
        invariant forall i | 0 <= i <= childIndex && i < 4 :: mem[node].child[i] == n.child[i]
      {
        mem := mem[node := mem[node].(child := mem[node].child[childIndex := mem[node].child[childIndex - 1]])];
        childIndex := childIndex - 1;
      }
    }

    /** The first child of the right node becomes the last child of the left node. */
    method MoveFirst(node: Ptr, right: Ptr, ghost x: Tree, ghost y: Tree)
      requires Loose(mem, x) && Loose(mem, y) && x.id == node && y.id == right
      requires Ids(x) + Ids(y) <= multiset(mem.Keys) && |x.kids| <= 3 && |y.kids| >= 2
      modifies this`mem
      ensures Moved(old(mem), mem, node, x.kids + [y.kids[0]], right, y.kids[1..])
    {
      ghost var m := mem;
      ghost var mv := [y.kids[0]];
      assert y.kids == mv + y.kids[1..];
      TwoApart(mem, x, y);
      assert mem[right].child[0] == y.kids[0].id;
      TakeFirst(node, right);
      DropFirst(right);
      RootOfOne(y.kids[0]);
      ShiftedKids(m[right], mem[right], y.kids);
      MovedLeft(m, mem, x, x.kids + mv, y, y.kids[1..], mv);
    }

    /** The first child of `right` goes behind the last child of `node`. */
    method TakeFirst(node: Ptr, right: Ptr)
      requires node in mem && right in mem && node != right && mem[node].dataNum <= 2
      requires var p := mem[right].child[0]; p in mem && p != node && p != right
      modifies this`mem
      ensures var n, p := old(mem[node]), old(mem[right].child[0]);
        mem == old(mem)[node := n.(dataNum := n.dataNum + 1, child := n.child[n.dataNum + 1 := p])]
                       [p := old(mem[p]).(parent := node)]
    {
      mem := mem[node := mem[node].(child := mem[node].child[mem[node].dataNum + 1 := mem[right].child[0]])];
      mem := mem[mem[right].child[0] := mem[mem[right].child[0]].(parent := node)];
      mem := mem[node := mem[node].(dataNum := mem[node].dataNum + 1)];
    }

    /** The other children of `right` move to the front. */
    method DropFirst(right: Ptr)
      requires right in mem && mem[right].dataNum >= 1
      modifies this`mem
      ensures right in mem
      ensures var k := old(mem[right]);
        mem == old(mem)[right := k.(dataNum := k.dataNum - 1, child := mem[right].child)]
      ensures forall i | 0 < i <= old(mem[right]).dataNum :: mem[right].child[i - 1] == old(mem[right]).child[i]
    {
      ShiftChildren(right, 0);
      mem := mem[right := mem[right].(dataNum := mem[right].dataNum - 1)];
      mem := mem[right := mem[right].(child := mem[right].child[mem[right].dataNum + 1 := 0])];
    }

    /** All children of the right node are appended to the left node. */
    method MoveAll(left: Ptr, right: Ptr, ghost x: Tree, ghost y: Tree)
      requires Loose(mem, x) && Loose(mem, y) && x.id == left && y.id == right
      requires Ids(x) + Ids(y) <= multiset(mem.Keys) && |x.kids| + |y.kids| <= 4
      modifies this`mem
      ensures mem.Keys == old(mem.Keys) && left in mem && right in mem && InnerIs(mem[left], x.kids + y.kids)
      ensures mem[left].parent == old(mem[left].parent) && mem[left].next == old(mem[left].next)
      ensures mem[right] == old(mem[right])
      ensures Handed(old(mem), mem, left, x.kids + y.kids, right, [])
    {
      ghost var m := mem;
      TwoApart(mem, x, y);
      AppendChildren(left, right, x, y);
      assert y.kids == y.kids + [];
      MovedLeft(m, mem, x, x.kids + y.kids, y, [], y.kids);
    }

    method AppendChildren(left: Ptr, right: Ptr, ghost x: Tree, ghost y: Tree)
      requires x.Inner? && y.Inner? && x.id == left && y.id == right && left != right && left in mem && right in mem
      requires InnerIs(mem[left], x.kids) && InnerIs(mem[right], y.kids) && |x.kids| + |y.kids| <= 4
      requires forall i | 0 <= i < |y.kids| :: y.kids[i].id in mem && y.kids[i].id != left && y.kids[i].id != right
      modifies this`mem
      ensures mem.Keys == old(mem.Keys) && InnerIs(mem[left], x.kids + y.kids)
      ensures mem[left].parent == old(mem[left].parent) && mem[left].next == old(mem[left].next)
      ensures mem[right] == old(mem[right])
      ensures Reparented(old(mem), mem, left, right, y.kids, left)
    {
      hide Reparented;
      ghost var m := mem;
      var leftKeyCount := mem[left].dataNum;
      var rightKeyCount := mem[right].dataNum;
      CopyChildren(left, right, x.kids, y.kids);
      ghost var m1 := mem;
      mem := mem[left := mem[left].(dataNum := leftKeyCount + rightKeyCount + 1)];
      ReparentedElsewhere(m, m1, mem, left, right, y.kids, left);
      AppendedKids(mem[left], x.kids, y.kids);
    }

    /** The children of `right` are stored behind those of `left` and learn their new parent. */
    method CopyChildren(left: Ptr, right: Ptr, ghost kx: seq<Tree>, ghost ky: seq<Tree>)
      requires left in mem && right in mem && left != right && |kx| + |ky| <= 4
      requires InnerIs(mem[left], kx) && InnerIs(mem[right], ky)
      requires forall i | 0 <= i < |ky| :: ky[i].id in mem && ky[i].id != left && ky[i].id != right
      modifies this`mem
      ensures mem.Keys == old(mem.Keys) && mem[right] == old(mem[right])
      ensures mem[left] == old(mem[left]).(child := mem[left].child)
      ensures forall i | 0 <= i < |kx| :: mem[left].child[i] == kx[i].id
      ensures forall i | 0 <= i < |ky| :: mem[left].child[|kx| + i] == ky[i].id
      ensures Reparented(old(mem), mem, left, right, ky, left)
    {
      hide Reparented, IsRoot;
      ghost var m := mem;
      assert ky[..0] == [];
      ReparentedNone(m, mem, left, right, left);
      var leftKeyCount := mem[left].dataNum;
      var childIndex := 0;
      while childIndex <= mem[right].dataNum
        invariant childIndex <= |ky| && mem.Keys == m.Keys && mem[right] == m[right]
        invariant mem[left] == m[left].(child := mem[left].child)
        invariant forall i | 0 <= i < |kx| :: mem[left].child[i] == kx[i].id
        invariant forall i | 0 <= i < childIndex :: mem[left].child[|kx| + i] == ky[i].id
        invariant Reparented(m, mem, left, right, ky[..childIndex], left)
      {
        var child := mem[right].child[childIndex];
        assert child == ky[childIndex].id;
        ghost var m1 := mem;
        SetChild(left, leftKeyCount + 1 + childIndex, child);
        ReparentedNext(m, m1, mem, left, right, ky, childIndex, left);
        childIndex := childIndex + 1;
      }
      assert ky[..childIndex] == ky;
    }

    /** The left neighbour gives its last child. */
    method InnerFromLeft(parent: Ptr, left: Ptr, node: Ptr, ghost c: Ctx, ghost t: Tree, ghost h: nat)
      requires LooseInHole(mem, c, t) && c.Frame? && CtxShaped(c, h + 1) && Plug(c, t).id == root
      requires c.id == parent && t.Inner? && t.id == node && |t.kids| == 1 && ShapedF(t.kids, h)
      requires c.left != [] && left == c.left[|c.left| - 1].id && left in mem && mem[left].dataNum > 1
      modifies this`mem, this`tree, this`height
      ensures mem.Keys == old(mem.Keys) && Shapely()
      ensures Entries(tree) == EntriesBefore(c.up) + Entries(Filled(c, t)) + EntriesAfter(c.up)
    {
      hide Ids, IdsF, Leaves, LeavesF, Entries, EntriesF;
      ghost var n := |c.left| - 1;
      ghost var a, x, b := c.left[..n], c.left[n], c.right;
      OpenLeft(mem, c, t);
      assert Shaped(x, h + 1) && Rep(mem, x);
      PairApart(mem, c.up, parent, a, x, t, b);
      ghost var k := |x.kids| - 1;
      ghost var x', t' := Inner(left, x.kids[..k]), Inner(node, [x.kids[k]] + t.kids);
      ghost var m := mem;
      assert x'.kids + t'.kids == x.kids + t.kids;
      MoveLast(left, node, x, t);
      FinishBorrow(m, parent, left, node, c, t, a, x, t, b, x', t', h);
    }

    /** The right neighbour gives its first child. */
    method InnerFromRight(parent: Ptr, node: Ptr, right: Ptr, ghost c: Ctx, ghost t: Tree, ghost h: nat)
      requires LooseInHole(mem, c, t) && c.Frame? && CtxShaped(c, h + 1) && Plug(c, t).id == root
      requires c.id == parent && t.Inner? && t.id == node && |t.kids| == 1 && ShapedF(t.kids, h)
      requires c.right != [] && right == c.right[0].id && right in mem && mem[right].dataNum > 1
      modifies this`mem, this`tree, this`height
      ensures mem.Keys == old(mem.Keys) && Shapely()
      ensures Entries(tree) == EntriesBefore(c.up) + Entries(Filled(c, t)) + EntriesAfter(c.up)
    {
      hide Ids, IdsF, Leaves, LeavesF, Entries, EntriesF;
      ghost var a, y, b := c.left, c.right[0], c.right[1..];
      OpenRight(mem, c, t);
      assert Shaped(y, h + 1) && Rep(mem, y);
      PairApart(mem, c.up, parent, a, t, y, b);
      ghost var t', y' := Inner(node, t.kids + [y.kids[0]]), Inner(right, y.kids[1..]);
      ghost var m := mem;
      assert t'.kids + y'.kids == t.kids + y.kids;
      MoveFirst(node, right, t, y);
      FinishBorrow(m, parent, node, right, c, t, a, t, y, b, t', y', h);
    }

    /** Both neighbours get exact separators, then the ancestors do. */
    method FinishBorrow(ghost m: Mem, parent: Ptr, left: Ptr, right: Ptr, ghost c: Ctx, ghost t: Tree,
                        ghost a: seq<Tree>, ghost x: Tree, ghost y: Tree, ghost b: seq<Tree>, ghost x': Tree,
                        ghost y': Tree, ghost h: nat)
      requires c.Frame? && c.id == parent && CtxShaped(c, h + 1) && Plug(c, t).id == root
      requires PairOpen(m, c.up, parent, a, x, y, b) && c.left + [t] + c.right == Pair(a, x, y, b)
      requires x.Inner? && y.Inner? && left == x.id && right == y.id
      requires x'.Inner? && x'.id == left && y'.Inner? && y'.id == right && x'.kids + y'.kids == x.kids + y.kids
      requires Moved(m, mem, left, x'.kids, right, y'.kids)
      requires ShapedF(a, h + 1) && ShapedF(b, h + 1) && Shaped(x', h + 1) && Shaped(y', h + 1) && |a| + |b| <= 2
      modifies this`mem, this`tree, this`height
      ensures mem.Keys == old(mem.Keys) && Shapely()
      ensures Entries(tree) == EntriesBefore(c.up) + Entries(Filled(c, t)) + EntriesAfter(c.up)
    {
      ghost var t' := Inner(parent, Pair(a, x', y', b));
      FixPair(m, parent, left, right, c.up, a, x, y, b, x', y', h);
      BorrowedEntries(parent, a, x, y, b, x', y');
      OutermostSame(c.up, Filled(c, t), t');
      PairShaped(parent, a, x', y', b, h + 1);
      FixUp(parent, c.up, t', h + 2);
    }

    method FixPair(ghost m: Mem, parent: Ptr, left: Ptr, right: Ptr, ghost c: Ctx,
                   ghost a: seq<Tree>, ghost x: Tree, ghost y: Tree, ghost b: seq<Tree>, ghost x': Tree,
                   ghost y': Tree, ghost h: nat)
      requires PairOpen(m, c, parent, a, x, y, b)
      requires x.Inner? && y.Inner? && left == x.id && right == y.id
      requires x'.Inner? && x'.id == left && y'.Inner? && y'.id == right && x'.kids + y'.kids == x.kids + y.kids
      requires Moved(m, mem, left, x'.kids, right, y'.kids)
      requires Shaped(x', h + 1) && Shaped(y', h + 1)
      modifies this`mem
      ensures mem.Keys == old(mem.Keys) && LooseInHole(mem, c, Inner(parent, Pair(a, x', y', b)))
    {
      MovedPair(m, mem, c, parent, a, x, y, b, x', y');
      ghost var m1 := mem;
      FixKeys(left, x', h);
      ghost var m2 := mem;
      KeysElsewhere(m1, m2, left, y');
      FixKeys(right, y', h);
      InnersBorrowed(m, m1, m2, mem, c, parent, a, x, y, b, x'.kids, y'.kids);
    }

    /** The node is merged into its left neighbour. */
    method InnerIntoLeft(parent: Ptr, index: nat, left: Ptr, node: Ptr, ghost c: Ctx, ghost t: Tree, ghost h: nat)
      requires Backed() && LooseInHole(mem, c, t) && c.Frame? && CtxShaped(c, h + 1) && Plug(c, t).id == root
      requires c.id == parent && t.Inner? && t.id == node && |t.kids| == 1 && ShapedF(t.kids, h) && index == |c.left|
      requires c.left != [] && left == c.left[|c.left| - 1].id && left in mem && mem[left].dataNum <= 1
      modifies this`mem, this`tree, this`height, heap
      ensures Backed() && Foreign() == old(Foreign()) && Shapely()
      ensures Budget() >= old(Budget()) && mem.Keys <= old(mem.Keys)
      ensures Entries(tree) == EntriesBefore(c.up) + Entries(Filled(c, t)) + EntriesAfter(c.up)
      decreases c, 0, 0
    {
      hide Ids, IdsF, Leaves, LeavesF, Entries, EntriesF;
      ghost var n := |c.left| - 1;
      ghost var a, x, b := c.left[..n], c.left[n], c.right;
      OpenLeft(mem, c, t);
      assert Shaped(x, h + 1) && Rep(mem, x);
      MergeInnerPair(parent, index, left, node, c.up, a, x, t, b, h);
      ghost var x' := Inner(left, x.kids + t.kids);
      MergedShaped(parent, a, x', b, h + 1);
      MergedEntries(parent, a, x, t, b, x');
      OutermostSame(c.up, Filled(c, t), Inner(parent, a + [x'] + b));
      BalanceInner(parent, c.up, Inner(parent, a + [x'] + b), h + 1);
    }

    /** The right neighbour is merged into the node. */
    method RightIntoInner(parent: Ptr, index: nat, node: Ptr, right: Ptr, ghost c: Ctx, ghost t: Tree, ghost h: nat)
      requires Backed() && LooseInHole(mem, c, t) && c.Frame? && CtxShaped(c, h + 1) && Plug(c, t).id == root
      requires c.id == parent && t.Inner? && t.id == node && |t.kids| == 1 && ShapedF(t.kids, h) && index == |c.left|
      requires c.right != [] && right == c.right[0].id && right in mem && mem[right].dataNum <= 1
      modifies this`mem, this`tree, this`height, heap
      ensures Backed() && Foreign() == old(Foreign()) && Shapely()
      ensures Budget() >= old(Budget()) && mem.Keys <= old(mem.Keys)
      ensures Entries(tree) == EntriesBefore(c.up) + Entries(Filled(c, t)) + EntriesAfter(c.up)
      decreases c, 0, 0
    {
      hide Ids, IdsF, Leaves, LeavesF, Entries, EntriesF;
      ghost var a, y, b := c.left, c.right[0], c.right[1..];
      OpenRight(mem, c, t);
      assert Shaped(y, h + 1) && Rep(mem, y);
      MergeInnerPair(parent, index + 1, node, right, c.up, a, t, y, b, h);
      ghost var t' := Inner(node, t.kids + y.kids);
      MergedShaped(parent, a, t', b, h + 1);
      MergedEntries(parent, a, t, y, b, t');
      OutermostSame(c.up, Filled(c, t), Inner(parent, a + [t'] + b));
      BalanceInner(parent, c.up, Inner(parent, a + [t'] + b), h + 1);
    }

    /** Merging two inner nodes, dropping the right one from the parent and returning it to the heap. */
    method MergeInnerPair(parent: Ptr, childIndex: nat, left: Ptr, right: Ptr,
                          ghost c: Ctx, ghost a: seq<Tree>, ghost x: Tree, ghost y: Tree, ghost b: seq<Tree>,
                          ghost h: nat)
      requires Backed() && PairOpen(mem, c, parent, a, x, y, b) && x.Inner? && y.Inner? && x.id == left && y.id == right
      requires |x.kids| + |y.kids| <= 4 && ShapedF(x.kids, h) && ShapedF(y.kids, h) && childIndex == |a| + 1
      modifies this`mem, heap
      ensures Backed() && Foreign() == old(Foreign()) && Budget() >= old(Budget()) && mem.Keys <= old(mem.Keys)
      ensures LooseInHole(mem, c, Inner(parent, a + [Inner(left, x.kids + y.kids)] + b))
    {
      hide Ids, IdsF, RepF, Pair, Owns, Chain, Rep, ShapedF;
      hide KernelHeap.WellFormed, KernelHeap.Linked, KernelHeap.Live, KernelHeap.Room;
      ghost var m := mem;
      ghost var x' := Inner(left, x.kids + y.kids);
      PairApart(mem, c, parent, a, x, y, b);
      MoveAndFix(left, right, x, y, x', h, multiset{parent});
      ghost var m2 := mem;
      DropChild(parent, childIndex, a, x, y, b);
      MergedInnerIs(mem[parent], a, x, x', b);
      FreeNode(right);
      InnersMerged(m, m2, mem, c, parent, a, x, y, b, x');
    }

    /** The left node takes over all children and gets exact separators. */
    method MoveAndFix(left: Ptr, right: Ptr, ghost x: Tree, ghost y: Tree, ghost x': Tree, ghost h: nat,
        ghost apart: multiset<Ptr>)
      requires Loose(mem, x) && Loose(mem, y) && x.id == left && y.id == right
      requires Ids(x) + Ids(y) + apart <= multiset(mem.Keys) && |x.kids| + |y.kids| <= 4
      requires ShapedF(x.kids, h) && ShapedF(y.kids, h) && x' == Inner(left, x.kids + y.kids)
      modifies this`mem
      ensures mem.Keys == old(mem.Keys) && Rep(mem, x') && mem[left].parent == old(mem[left].parent)
      ensures Changes(old(mem), mem, Ids(x) + Ids(y)) && Agrees(old(mem), mem, apart)
      ensures forall p | p in old(mem) :: mem[p].next == old(mem)[p].next
    {
      ghost var m := mem;
      MoveAll(left, right, x, y);
      ghost var m1 := mem;
      MovedAll(m, mem, x, y, x');
      FixKeys(left, x', h);
      MergeCells(m, m1, mem, Ids(x) + Ids(y), left, apart);
    }
  }

  lemma BorrowedEntries(pid: Ptr, a: seq<Tree>, x: Tree, y: Tree, b: seq<Tree>, x': Tree, y': Tree)
    requires x.Inner? && y.Inner? && x'.Inner? && y'.Inner? && x'.kids + y'.kids == x.kids + y.kids
    ensures Entries(Inner(pid, Pair(a, x', y', b))) == Entries(Inner(pid, Pair(a, x, y, b)))
  {
    MovedParts(x, x'.kids, y, y'.kids);
    PairEntries(pid, a, x, y, b);
    PairEntries(pid, a, x', y', b);
  }

  lemma MergedEntries(pid: Ptr, a: seq<Tree>, x: Tree, y: Tree, b: seq<Tree>, x': Tree)
    requires x.Inner? && y.Inner? && x'.Inner? && x'.kids == x.kids + y.kids
    ensures Entries(Inner(pid, a + [x'] + b)) == Entries(Inner(pid, Pair(a, x, y, b)))
  {
    ForestConcat(x.kids, y.kids);
    PairEntries(pid, a, x, y, b);
    ForestSplit(a, x', b);
  }

  lemma LastWriteCounts(m: Mem, x: Ptr, nx: Node, y: Ptr, ny: Node, ny': Node, p: Ptr, np: Node)
    requires x != y && x != p && y != p
    ensures m[y := ny][p := np][x := nx][y := ny'] == m[x := nx][y := ny'][p := np]
  {
  }

  lemma RootOfOne(t: Tree)
    ensures forall p :: IsRoot([t], p) <==> p == t.id
  {
    assert [t][0].id == t.id;
  }

  lemma PushedKids(n: Node, n': Node, t: Tree, kids: seq<Tree>)
    requires InnerIs(n, kids) && !n'.leaf && n'.dataNum == n.dataNum + 1 && n'.child[0] == t.id
    requires forall i | 0 <= i <= n.dataNum :: n'.child[i + 1] == n.child[i]
    ensures InnerIs(n', [t] + kids)
  {
    forall i | 0 <= i < |[t] + kids|
      ensures n'.child[i] == ([t] + kids)[i].id
    {
      if i > 0 {
        var j := i - 1;
        assert n'.child[j + 1] == n.child[j] == kids[j].id;
      }
    }
  }

  lemma ShiftedKids(n: Node, n': Node, kids: seq<Tree>)
    requires InnerIs(n, kids) && |kids| >= 2 && !n'.leaf && n'.dataNum == n.dataNum - 1
    requires forall i | 0 < i <= n.dataNum :: n'.child[i - 1] == n.child[i]
    ensures InnerIs(n', kids[1..])
  {
    forall i | 0 <= i < |kids[1..]|
      ensures n'.child[i] == kids[1..][i].id
    {
      var j := i + 1;
      assert n'.child[j - 1] == n.child[j] == kids[j].id;
    }
  }

  lemma AppendedKids(n: Node, kx: seq<Tree>, ky: seq<Tree>)
    requires !n.leaf && n.dataNum + 1 == |kx| + |ky|
    requires forall i | 0 <= i < |kx| :: n.child[i] == kx[i].id
    requires forall i | 0 <= i < |ky| :: n.child[|kx| + i] == ky[i].id
    ensures InnerIs(n, kx + ky)
  {
    forall i | 0 <= i < |kx + ky|
      ensures n.child[i] == (kx + ky)[i].id
    {
      if i >= |kx| {
        assert n.child[|kx| + (i - |kx|)] == ky[i - |kx|].id;
      }
    }
  }

  lemma CopiedAndFreed(m: Mem, m1: Mem, m': Mem, root: Ptr, k: Tree)
    requires LooseInHole(m, Top, Inner(root, [k])) && k.id in m && root in m && k.id != root
    requires m1.Keys == m.Keys && m1[root] == m[k.id].(parent := 0) && m' == m1 - {k.id}
    requires forall p | p in m && p != root && p != k.id ::
      m1[p] == if k.Inner? && IsRoot(k.kids, p) then m[p].(parent := root) else m[p]
    ensures Built(m', Rehung(k, root))
  {
    hide LooseInHole, IsRoot, Built, Rehung;
    assert m'.Keys == m.Keys - {k.id};
    Collapsed(m, m[root := m[k.id].(parent := 0)], m', root, k);
  }

  lemma RootAndChild(m: Mem, t: Tree, k: Tree)
    requires LooseInHole(m, Top, t) && t.Inner? && t.kids == [k]
    ensures k.id in m && k.id != t.id && t.id !in Ids(k) && (k.Inner? ==> k.id !in IdsF(k.kids))
    ensures Ids(k) <= multiset(m.Keys) && Entries(t) == Entries(k)
    ensures t.id in m && m[t.id].child[0] == k.id && Rep(m, k)
  {
    assert t.kids[0] == k;
    ForestOne(k);
    var d := multiset{t.id} + Ids(k);
    assert Owns(m, d);
    OwnsDistinct(m, d);
    assert t.id in d && d[t.id] == 1 + Ids(k)[t.id];
    assert k.id in Ids(k) && k.id in d && d[k.id] == multiset{t.id}[k.id] + Ids(k)[k.id];
  }

  /** The children of two nodes are neither of the two. */
  lemma TwoApart(m: Mem, x: Tree, y: Tree)
    requires x.Inner? && y.Inner? && Ids(x) + Ids(y) <= multiset(m.Keys)
    ensures x.id != y.id && IdsF(x.kids) + IdsF(y.kids) <= multiset(m.Keys) && IdsF(x.kids) <= multiset(m.Keys)
    ensures forall i | 0 <= i < |x.kids| :: x.kids[i].id in m && x.kids[i].id != x.id && x.kids[i].id != y.id
    ensures forall i | 0 <= i < |y.kids| :: y.kids[i].id in m && y.kids[i].id != x.id && y.kids[i].id != y.id
  {
    var d := Ids(x) + Ids(y);
    OwnsDistinct(m, d);
    assert x.id in d && d[x.id] == 1 + IdsF(x.kids)[x.id] + multiset{y.id}[x.id] + IdsF(y.kids)[x.id];
    assert y.id in d && d[y.id] == multiset{x.id}[y.id] + IdsF(x.kids)[y.id] + 1 + IdsF(y.kids)[y.id];
    forall i | 0 <= i < |x.kids|
      ensures x.kids[i].id in m && x.kids[i].id != x.id && x.kids[i].id != y.id
    {
      IdsAt(x.kids, i);
      assert x.kids[i].id in d;
    }
    forall i | 0 <= i < |y.kids|
      ensures y.kids[i].id in m && y.kids[i].id != x.id && y.kids[i].id != y.id
    {
      IdsAt(y.kids, i);
      assert y.kids[i].id in d;
    }
  }

  /** The parent tree of the hole with `t` in it. */
  ghost function Filled(c: Ctx, t: Tree): Tree
    requires c.Frame?
  {
    Inner(c.id, c.left + [t] + c.right)
  }

  lemma HoleEntries(c: Ctx, t: Tree)
    requires c.Frame?
    ensures EntriesBefore(c) + Entries(t) + EntriesAfter(c)
         == EntriesBefore(c.up) + Entries(Filled(c, t)) + EntriesAfter(c.up)
  {
    ForestSplit(c.left, t, c.right);
    Regroup(EntriesBefore(c.up), EntriesF(c.left), Entries(t), EntriesF(c.right), EntriesAfter(c.up));
  }

  lemma PairShaped(p: Ptr, a: seq<Tree>, x: Tree, y: Tree, b: seq<Tree>, h: nat)
    requires ShapedF(a, h) && ShapedF(b, h) && Shaped(x, h) && Shaped(y, h) && |a| + |b| <= 2
    ensures Shaped(Inner(p, Pair(a, x, y, b)), h + 1)
  {
  }

  lemma MergedShaped(p: Ptr, a: seq<Tree>, x: Tree, b: seq<Tree>, h: nat)
    requires ShapedF(a, h) && ShapedF(b, h) && Shaped(x, h) && |a| + |b| <= 2
    ensures ShapedF(a + [x] + b, h) && 1 <= |a + [x] + b| <= 3
  {
  }

  lemma MergedInnerIs(n: Node, a: seq<Tree>, x: Tree, x': Tree, b: seq<Tree>)
    requires InnerIs(n, a + [x] + b) && x'.id == x.id
    ensures InnerIs(n, a + [x'] + b)
  {
    HoleInner(n, a, x, x', b);
  }

  lemma LooseRootIffTop(m: Mem, c: Ctx, t: Tree, root: Ptr)
    requires LooseInHole(m, c, t) && Plug(c, t).id == root
    ensures t.id == root <==> c.Top?
  {
    OutermostId(c, t);
    assert t.id in Ids(t);
    HoleApart(m, c, Ids(t), t.id);
  }

  lemma DroppedChildren(n: Node, n': Node, a: seq<Tree>, x: Tree, y: Tree, b: seq<Tree>)
    requires InnerIs(n, Pair(a, x, y, b)) && !n'.leaf && n'.dataNum == n.dataNum - 1
    requires forall i | 0 <= i <= |a| :: n'.child[i] == n.child[i]
    requires forall i | |a| + 1 < i <= n.dataNum :: n'.child[i - 1] == n.child[i]
    ensures InnerIs(n', a + [x] + b)
  {
    var k, k' := Pair(a, x, y, b), a + [x] + b;
    forall i | 0 <= i < |k'|
      ensures n'.child[i] == k'[i].id
    {
      if i <= |a| {
        assert n.child[i] == k[i].id;
      } else {
        var j := i + 1;
        assert n'.child[j - 1] == n.child[j] == k[j].id;
      }
    }
  }

  lemma RootsOfTwo(a: Tree, b: Tree)
    ensures forall p :: IsRoot([a, b], p) <==> p == a.id || p == b.id
  {
    assert [a, b][0] == a && [a, b][1] == b;
  }

  lemma PartsTop(m: Mem, told: Tree, ts: seq<Tree>, rest: multiset<Ptr>)
    requires Parts(m, Top, told, ts, rest)
    ensures told.id in m && m[told.id].parent == 0 && SepCtx(m, Top, told)
  {
  }

  lemma TopEntries(c: Ctx, es: seq<Entry>)
    ensures c.Top? ==> EntriesBefore(c) + es + EntriesAfter(c) == es
  {
  }

  lemma SpillOver(c: Ctx)
    ensures c.Top? ==> Spill(c) == 1
    ensures c.Frame? && |c.left| + |c.right| == 3 ==> Spill(c) == 1 + Spill(c.up)
  {
  }

  lemma OneMoreKid(keys: seq<U64>, kids: seq<Tree>)
    requires KeysFor(keys, kids)
    ensures |kids| == |keys| + 1
  {
  }

  lemma HalvesOfFive(keys: seq<U64>, kids: seq<Tree>, a: Ptr, b: Ptr, h: nat)
    requires KeysFor(keys, kids) && |kids| == 5 && ShapedF(kids, h)
    ensures KeysFor(keys[..2], kids[..3]) && KeysFor(keys[3..], kids[3..]) && kids == kids[..3] + kids[3..]
    ensures Shaped(Inner(a, kids[..3]), h + 1) && Shaped(Inner(b, kids[3..]), h + 1)
    ensures Min(Inner(a, kids[..3])) == Min(kids[0])
  {
  }

  lemma MinOfTail(keys: seq<U64>, kids: seq<Tree>, i: nat, id: Ptr)
    requires KeysFor(keys, kids) && 0 < i < |kids|
    ensures keys[i - 1] == Min(Inner(id, kids[i..]))
  {
  }

  lemma MiddleOf(ts: seq<Tree>, a: seq<Tree>, s: seq<Tree>, b: seq<Tree>)
    requires ts == a + s + b
    ensures forall i | 0 <= i < |s| :: s[i] == ts[|a| + i]
  {
  }

  lemma SplitEntries(kids: seq<Tree>)
    requires |kids| >= 3
    ensures EntriesF(kids) == EntriesF(kids[..3]) + EntriesF(kids[3..])
  {
    assert kids == kids[..3] + kids[3..];
    ForestConcat(kids[..3], kids[3..]);
  }

  /** The node that fits the hole is the root exactly if nothing is above it. */
  lemma RootIffTop(m: Mem, c: Ctx, told: Tree, ts: seq<Tree>, rest: multiset<Ptr>, root: Ptr)
    requires Parts(m, c, told, ts, rest) && told.id in rest && Plug(c, told).id == root
    ensures told.id == root <==> c.Top?
  {
    PartsCells(m, c, told, ts, rest, told.id);
    OutermostId(c, told);
  }

  lemma RootSplitEntries(t1: seq<Tree>, t2: seq<Tree>, a: Ptr, b: Ptr, root: Ptr)
    ensures Entries(Inner(root, [Inner(a, t1), Inner(b, t2)])) == EntriesF(t1 + t2)
  {
    ForestTwo(Inner(a, t1), Inner(b, t2));
    ForestConcat(t1, t2);
  }

  lemma ChildUnique(m: Mem, c: Ctx, t: Tree)
    requires c.Frame? && RepCtx(m, c, t) && CtxIds(c) + Ids(t) <= multiset(m.Keys)
    ensures forall i | 0 <= i < |c.left| :: c.left[i].id != t.id
  {
    assert t.id in Ids(t);
    HoleApart(m, c, Ids(t), t.id);
    forall i | 0 <= i < |c.left|
      ensures c.left[i].id != t.id
    {
      IdsAt(c.left, i);
      assert c.left[i].id in CtxIds(c);
    }
  }

  lemma OpenedChildren(n: Node, c: Ctx, tl: Tree, tr: Tree, children: seq<Ptr>)
    requires c.Frame? && InnerIs(n, c.left + [tl] + c.right)
    requires children == n.child[..|c.left| + 1] + [tr.id] + n.child[|c.left| + 1..n.dataNum + 1]
    ensures |children| == |OpenedKids(c, tl, tr)|
    ensures forall i | 0 <= i < |children| :: children[i] == OpenedKids(c, tl, tr)[i].id
  {
    var k, k' := c.left + [tl] + c.right, OpenedKids(c, tl, tr);
    forall i | 0 <= i < |children|
      ensures children[i] == k'[i].id
    {
      if i <= |c.left| {
        assert children[i] == n.child[i] == k[i].id && k'[i] == k[i];
      } else if i > |c.left| + 1 {
        assert children[i] == n.child[i - 1] == k[i - 1].id && k'[i] == k[i - 1];
      }
    }
  }

  lemma OpenedShaped(c: Ctx, tl: Tree, tr: Tree, h: nat)
    requires CtxShaped(c, h) && c.Frame? && Shaped(tl, h) && Shaped(tr, h)
    ensures ShapedF(OpenedKids(c, tl, tr), h) && 3 <= |OpenedKids(c, tl, tr)| <= 5
  {
  }

  lemma RootIffTopHole(m: Mem, c: Ctx, leaf: Ptr, es: seq<Entry>, root: Ptr)
    requires InHole(m, c, Leaf(leaf, es)) && Plug(c, Leaf(leaf, es)).id == root
    ensures leaf == root <==> c.Top?
  {
    OutermostId(c, Leaf(leaf, es));
    HoleApart(m, c, multiset{leaf}, leaf);
  }

  lemma Leaks(m: Mem, q: Ptr)
    requires q !in m
    ensures LeakedOne(m, m[q := BLANK.(leaf := true)])
  {
  }

  lemma LeafInHole(m: Mem, c: Ctx, leaf: Ptr, es: seq<Entry>)
    requires InHole(m, c, Leaf(leaf, es))
    ensures leaf in m && LeafIs(m[leaf], es)
  {
  }

  lemma TopIsRoot(c: Ctx, h: nat)
    requires CtxDepth(c) == h
    ensures c.Top? <==> h == 0
  {
  }

  /** An entry of a leaf is a binding of the index. */
  lemma FoundInLeaf(t: Tree, c: Ctx, leaf: Ptr, es: seq<Entry>, i: nat)
    requires t == Plug(c, Leaf(leaf, es)) && Ascending(Entries(t)) && i < |es|
    ensures es[i].fnv in AsMap(Entries(t)) && AsMap(Entries(t))[es[i].fnv] == (es[i].djb, es[i].value)
  {
    PlugParts(c, Leaf(leaf, es));
    var j := |EntriesBefore(c)| + i;
    assert Entries(t)[j] == es[i];
    AsMapAt(Entries(t), j);
  }

  /** Putting an entry at its position in its leaf adds exactly one binding. */
  lemma InsertedContents(t: Tree, c: Ctx, leaf: Ptr, es: seq<Entry>, i: nat, e: Entry)
    requires t == Plug(c, Leaf(leaf, es)) && Around(c, Leaf(leaf, es), e.fnv) && Ascending(Entries(t))
    requires i <= |es| && AllBelow(es[..i], e.fnv) && (i < |es| ==> e.fnv < es[i].fnv)
    ensures var all' := EntriesBefore(c) + InsertAt(es, i, e) + EntriesAfter(c);
      Ascending(all') && AsMap(all') == AsMap(Entries(t))[e.fnv := (e.djb, e.value)]
    ensures e.fnv !in AsMap(Entries(t))
  {
    PlugParts(c, Leaf(leaf, es));
    var a, b := EntriesBefore(c), EntriesAfter(c);
    assert AllAbove(es[i..], e.fnv) by {
      AscendingMid(a, es, b);
      AboveFrom(es, i, e.fnv);
    }
    AroundConcat(a, es[..i], es[i..], b, e.fnv);
    InsertedGroups(a, es, i, e, b);
    InsertedMap(a + es[..i], es[i..] + b, e);
  }

  lemma InsertedGroups(a: seq<Entry>, es: seq<Entry>, i: nat, e: Entry, b: seq<Entry>)
    requires i <= |es|
    ensures (a + es[..i]) + (es[i..] + b) == a + es + b
    ensures (a + es[..i]) + [e] + (es[i..] + b) == a + InsertAt(es, i, e) + b
  {
    assert es == es[..i] + es[i..];
  }

  lemma AboveFrom(es: seq<Entry>, i: nat, key: U64)
    requires Ascending(es) && i <= |es| && (i < |es| ==> key < es[i].fnv)
    ensures AllAbove(es[i..], key)
  {
    forall k | 0 <= k < |es[i..]|
      ensures key < es[i..][k].fnv
    {
      assert es[i..][k] == es[i + k];
    }
  }

  lemma InsertedMap(a: seq<Entry>, b: seq<Entry>, e: Entry)
    requires Ascending(a + b) && AllBelow(a, e.fnv) && AllAbove(b, e.fnv)
    ensures Ascending(a + [e] + b) && AsMap(a + [e] + b) == AsMap(a + b)[e.fnv := (e.djb, e.value)]
    ensures e.fnv !in AsMap(a + b)
  {
    var all := a + b;
    assert all[..|a|] == a && all[|a|..] == b;
    assert InsertAt(all, |a|, e) == a + [e] + b;
    AroundAbsent(a, b, e.fnv);
    AscendingInsert(all, |a|, e);
    AsMapInsert(all, |a|, e);
    AsMapDomain(all, e.fnv);
  }

  /** Taking an entry out of its leaf removes exactly its binding. */
  lemma RemovedContents(t: Tree, c: Ctx, leaf: Ptr, es: seq<Entry>, i: nat)
    requires t == Plug(c, Leaf(leaf, es)) && Ascending(Entries(t)) && i < |es|
    ensures var all' := EntriesBefore(c) + RemoveAt(es, i) + EntriesAfter(c);
      Ascending(all') && AsMap(all') == AsMap(Entries(t)) - {es[i].fnv}
  {
    PlugParts(c, Leaf(leaf, es));
    RemovedMid(EntriesBefore(c), es, i, EntriesAfter(c));
  }

  lemma RemovedMid(a: seq<Entry>, es: seq<Entry>, i: nat, b: seq<Entry>)
    requires Ascending(a + es + b) && i < |es|
    ensures Ascending(a + RemoveAt(es, i) + b) && AsMap(a + RemoveAt(es, i) + b) == AsMap(a + es + b) - {es[i].fnv}
  {
    var all := a + es + b;
    var j := |a| + i;
    assert all[j] == es[i];
    assert RemoveAt(all, j) == a + RemoveAt(es, i) + b;
    AsMapRemove(all, j);
    AscendingRemove(all, j);
  }

  lemma AscendingRemove(es: seq<Entry>, i: nat)
    requires Ascending(es) && i < |es|
    ensures Ascending(RemoveAt(es, i))
  {
    var es' := RemoveAt(es, i);
    assert forall j | 0 <= j < i :: es'[j] == es[j];
    assert forall j | i <= j < |es'| :: es'[j] == es[j + 1];
  }

  /** An insertion at the front of a leaf only happens in the leftmost leaf. */
  lemma InsertedMin(c: Ctx, leaf: Ptr, es: seq<Entry>, i: nat, e: Entry)
    requires Around(c, Leaf(leaf, es), e.fnv) && (c.Frame? ==> |es| >= 2)
    requires i <= |es| && (i < |es| ==> e.fnv < es[i].fnv)
    ensures Min(Leaf(leaf, InsertAt(es, i, e))) == Min(Leaf(leaf, es)) || LeftEdge(c)
  {
  }

  /** A key can only be bound by the leaf it belongs to. */
  lemma OnlyInLeaf(t: Tree, c: Ctx, leaf: Ptr, es: seq<Entry>, key: U64) returns (i: nat)
    requires t == Plug(c, Leaf(leaf, es)) && Around(c, Leaf(leaf, es), key)
    requires key in AsMap(Entries(t))
    ensures i < |es| && es[i].fnv == key
  {
    hide EntriesF, Plug, AsMap;
    PlugParts(c, Leaf(leaf, es));
    AsMapDomain(Entries(t), key);
    assert Entries(Leaf(leaf, es)) == es;
    hide Entries, EntriesBefore, EntriesAfter;
    i := OnlyMiddle(EntriesBefore(c), es, EntriesAfter(c), key);
  }

  lemma OnlyMiddle(a: seq<Entry>, es: seq<Entry>, b: seq<Entry>, key: U64) returns (i: nat)
    requires AllBelow(a, key) && AllAbove(b, key) && exists j :: 0 <= j < |a + es + b| && (a + es + b)[j].fnv == key
    ensures i < |es| && es[i].fnv == key
  {
    var j :| 0 <= j < |a + es + b| && (a + es + b)[j].fnv == key;
    ThreeParts(a, es, b, j);
    i := j - |a|;
  }

  lemma ThreeParts<T>(a: seq<T>, b: seq<T>, c: seq<T>, j: nat)
    requires j < |a + b + c|
    ensures j < |a| ==> (a + b + c)[j] == a[j]
    ensures |a| <= j < |a| + |b| ==> (a + b + c)[j] == b[j - |a|]
    ensures |a| + |b| <= j ==> (a + b + c)[j] == c[j - |a| - |b|]
  {
  }

  lemma NotInLeaf(t: Tree, c: Ctx, leaf: Ptr, es: seq<Entry>, f: U64, d: U64)
    requires t == Plug(c, Leaf(leaf, es)) && Around(c, Leaf(leaf, es), f) && Ascending(Entries(t))
    requires forall i | 0 <= i < |es| :: !(es[i].fnv == f && es[i].djb == d)
    ensures !(f in AsMap(Entries(t)) && AsMap(Entries(t))[f].0 == d)
  {
    if f in AsMap(Entries(t)) {
      var i := OnlyInLeaf(t, c, leaf, es, f);
      FoundInLeaf(t, c, leaf, es, i);
    }
  }
}
