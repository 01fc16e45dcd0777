/** The kernel heap: first fit over a doubly linked list of blocks that tile 100 KiB. */
module KernelHeap {
  import opened Arithmetic

  const HEAP_SIZE := 1024 * 100
  /** sizeof(heap_block_t): size, flag word, next, prev. */
  const HEADER := 24
  /** The NULL of header links; offset 0 is the first header. */
  const NIL := -1

  /** A header as it lies in memory; links are offsets into the heap. */
  datatype Header = Header(size: nat, isAlloc: bool, next: int, prev: int)

  /** A block of the abstract list. */
  datatype Block = Block(addr: nat, size: nat, used: bool)

  // ----- the block list -----

  ghost function End(b: Block): nat {
    b.addr + b.size
  }

  /** Consecutive blocks from `lo` up to `hi`, without gap or overlap. */
  ghost predicate Tiles(bs: seq<Block>, lo: nat, hi: nat)
    decreases |bs|
  {
    if bs == [] then lo == hi
    else bs[0].addr == lo && bs[0].size >= HEADER && Tiles(bs[1..], End(bs[0]), hi)
  }

  ghost predicate Coalesced(bs: seq<Block>) {
    forall i | 0 < i < |bs| :: bs[i - 1].used || bs[i].used
  }

  ghost predicate WellFormed(bs: seq<Block>) {
    Tiles(bs, 0, HEAP_SIZE) && Coalesced(bs)
  }

  ghost function NextOf(bs: seq<Block>, i: int): int {
    if 0 <= i && i + 1 < |bs| then bs[i + 1].addr else NIL
  }

  ghost function PrevOf(bs: seq<Block>, i: int): int {
    if 0 < i <= |bs| then bs[i - 1].addr else NIL
  }

  /** The headers in memory are those of the list, and both link directions agree. */
  ghost predicate Linked(m: map<int, Header>, bs: seq<Block>) {
    forall i | 0 <= i < |bs| :: bs[i].addr in m && m[bs[i].addr] == HeaderOf(bs, i)
  }

  ghost function HeaderOf(bs: seq<Block>, i: nat): Header
    requires i < |bs|
  {
    Header(bs[i].size, bs[i].used, NextOf(bs, i), PrevOf(bs, i))
  }

  // ----- the payloads that are in use: address -> size -----

  ghost function Live(bs: seq<Block>): map<nat, nat> {
    if bs == [] then map[]
    else
      var rest := Live(bs[1..]);
      if bs[0].used && bs[0].size >= HEADER then rest[bs[0].addr + HEADER := bs[0].size - HEADER] else rest
  }

  // ----- what allocating and freeing do to the list -----

  ghost predicate Fits(b: Block, total: nat) {
    !b.used && b.size >= total
  }

  /** The block list after block `i` was taken for `total` bytes. */
  ghost function Taken(bs: seq<Block>, i: nat, total: nat): seq<Block>
    requires i < |bs| && Fits(bs[i], total)
  {
    bs[..i] + TakenBlock(bs[i], total) + bs[i + 1..]
  }

  /** Block `i` is the first that fits. */
  ghost predicate LowestFit(bs: seq<Block>, i: nat, total: nat) {
    i < |bs| && Fits(bs[i], total) && forall j | 0 <= j < i :: !Fits(bs[j], total)
  }

  /** First fit can serve `n` requests of `total` bytes one after the other. */
  ghost predicate Serves(bs: seq<Block>, total: nat, n: nat)
    decreases n
  {
    n == 0 || exists i: nat :: LowestFit(bs, i, total) && Serves(Taken(bs, i, total), total, n - 1)
  }

  /** How many blocks of `total` bytes can be cut out of the free blocks. */
  ghost function Room(bs: seq<Block>, total: nat): nat
    requires total > 0
  {
    if bs == [] then 0 else Portions(bs[0], total) + Room(bs[1..], total)
  }

  ghost function Portions(b: Block, total: nat): nat
    requires total > 0
  {
    if b.used then 0 else b.size / total
  }

  /** The payload `p`, not live before, is the only change, and it has room for `size` bytes. */
  ghost predicate Gained(live: map<nat, nat>, live': map<nat, nat>, p: nat, size: nat) {
    p !in live && p in live' && live'[p] >= size && live' == live[p := live'[p]]
  }

  ghost function TakenBlock(b: Block, total: nat): seq<Block>
    requires Fits(b, total)
  {
    if b.size > total + HEADER
    then [Block(b.addr, total, true), Block(b.addr + total, b.size - total, false)]
    else [b.(used := true)]
  }

  /** The first block of the free run that releasing block `i` creates. */
  ghost function RunStart(bs: seq<Block>, i: nat): nat
    requires i < |bs|
  {
    if i > 0 && !bs[i - 1].used then i - 1 else i
  }

  /** The block after that run. */
  ghost function RunEnd(bs: seq<Block>, i: nat): nat
    requires i < |bs|
  {
    if i + 1 < |bs| && !bs[i + 1].used then i + 2 else i + 1
  }

  ghost function SizeSum(bs: seq<Block>): nat {
    if bs == [] then 0 else bs[0].size + SizeSum(bs[1..])
  }

  /** The block list after block `i` was released: it and its free neighbours are one block. */
  ghost function Released(bs: seq<Block>, i: nat): seq<Block>
    requires i < |bs|
  {
    var i0, i1 := RunStart(bs, i), RunEnd(bs, i);
    bs[..i0] + [Block(bs[i0].addr, SizeSum(bs[i0..i1]), false)] + bs[i1..]
  }

  // ----- facts about tilings -----

  lemma {:induction false} TilesConcat(a: seq<Block>, b: seq<Block>, lo: nat, hi: nat)
    ensures Tiles(a + b, lo, hi) <==> exists mid :: Tiles(a, lo, mid) && Tiles(b, mid, hi)
    decreases |a|
  {
    if a == [] {
      assert a + b == b;
      if Tiles(b, lo, hi) {
        assert Tiles(a, lo, lo);
      }
    } else {
      assert (a + b)[1..] == a[1..] + b;
      TilesConcat(a[1..], b, End(a[0]), hi);
      if mid :| Tiles(a[1..], End(a[0]), mid) && Tiles(b, mid, hi) && Tiles(a + b, lo, hi) {
        assert Tiles(a, lo, mid);
      }
      if mid :| Tiles(a, lo, mid) && Tiles(b, mid, hi) {
        assert Tiles(a[1..], End(a[0]), mid);
      }
    }
  }

  lemma TilesOne(b: Block, lo: nat, hi: nat)
    ensures Tiles([b], lo, hi) <==> b.addr == lo && b.size >= HEADER && End(b) == hi
    ensures SizeSum([b]) == b.size
  {
    assert [b][1..] == [];
  }

  lemma TilesTwo(a: Block, b: Block, lo: nat, hi: nat)
    ensures Tiles([a, b], lo, hi) <==>
      a.addr == lo && a.size >= HEADER && b.addr == End(a) && b.size >= HEADER && End(b) == hi
    ensures SizeSum([a, b]) == a.size + b.size
  {
    assert [a, b][1..] == [b];
    TilesOne(b, End(a), hi);
  }

  /** Replacing a stretch of the list by one that covers the same bytes keeps the tiling. */
  lemma TilesReplace(a: seq<Block>, s: seq<Block>, s': seq<Block>, b: seq<Block>, lo: nat, hi: nat)
    requires Tiles(a + s + b, lo, hi)
    requires forall x, y :: Tiles(s, x, y) ==> Tiles(s', x, y)
    ensures Tiles(a + s' + b, lo, hi)
  {
    TilesConcat(a + s, b, lo, hi);
    var y :| Tiles(a + s, lo, y) && Tiles(b, y, hi);
    TilesConcat(a, s, lo, y);
    var x :| Tiles(a, lo, x) && Tiles(s, x, y);
    assert Tiles(s', x, y);
    TilesConcat(a, s', lo, y);
    TilesConcat(a + s', b, lo, hi);
  }

  /** A block starts where the blocks before it end, and everything lies inside the heap. */
  lemma {:induction false} TilesOrder(bs: seq<Block>, lo: nat, hi: nat)
    requires Tiles(bs, lo, hi)
    ensures lo <= hi
    ensures forall i | 0 <= i < |bs| :: lo <= bs[i].addr && bs[i].size >= HEADER && End(bs[i]) <= hi
    ensures forall i, j | 0 <= i < j < |bs| :: End(bs[i]) <= bs[j].addr
    decreases |bs|
  {
    if bs != [] {
      TilesOrder(bs[1..], End(bs[0]), hi);
      assert forall i | 0 < i < |bs| :: bs[i] == bs[1..][i - 1];
    }
  }

  lemma TilesNeighbours(bs: seq<Block>, lo: nat, hi: nat, i: nat)
    requires Tiles(bs, lo, hi) && i + 1 < |bs|
    ensures bs[i + 1].addr == End(bs[i])
    decreases |bs|
  {
    if i > 0 {
      TilesNeighbours(bs[1..], End(bs[0]), hi, i - 1);
    }
  }

  // ----- facts about live payloads -----

  lemma {:induction false} LiveWhere(bs: seq<Block>, p: nat)
    requires p in Live(bs)
    ensures exists i :: 0 <= i < |bs| && bs[i].used && bs[i].addr + HEADER == p && Live(bs)[p] == bs[i].size - HEADER
  {
    if !(bs[0].used && bs[0].size >= HEADER && bs[0].addr + HEADER == p) {
      LiveWhere(bs[1..], p);
      var i :| 0 <= i < |bs[1..]| && bs[1..][i].used && bs[1..][i].addr + HEADER == p &&
        Live(bs[1..])[p] == bs[1..][i].size - HEADER;
      assert bs[i + 1] == bs[1..][i];
    }
  }

  lemma {:induction false} LiveAt(bs: seq<Block>, lo: nat, hi: nat, i: nat)
    requires Tiles(bs, lo, hi) && i < |bs| && bs[i].used
    ensures bs[i].addr + HEADER in Live(bs) && Live(bs)[bs[i].addr + HEADER] == bs[i].size - HEADER
    decreases |bs|
  {
    TilesOrder(bs, lo, hi);
    if i > 0 {
      LiveAt(bs[1..], End(bs[0]), hi, i - 1);
    }
  }

  lemma LiveOfUnused(bs: seq<Block>, lo: nat, hi: nat, i: nat)
    requires Tiles(bs, lo, hi) && i < |bs| && !bs[i].used
    ensures bs[i].addr + HEADER !in Live(bs)
  {
    TilesOrder(bs, lo, hi);
    if bs[i].addr + HEADER in Live(bs) {
      LiveWhere(bs, bs[i].addr + HEADER);
    }
  }

  /** A payload is live with size `n` exactly if there is a used block around it. */
  lemma LiveIff(bs: seq<Block>, lo: nat, hi: nat, p: nat, n: nat)
    requires Tiles(bs, lo, hi)
    ensures p in Live(bs) && Live(bs)[p] == n <==> p >= HEADER && Block(p - HEADER, n + HEADER, true) in bs
  {
    TilesOrder(bs, lo, hi);
    if p in Live(bs) && Live(bs)[p] == n {
      LiveWhere(bs, p);
      var i :| 0 <= i < |bs| && bs[i].used && bs[i].addr + HEADER == p && Live(bs)[p] == bs[i].size - HEADER;
      assert bs[i] == Block(p - HEADER, n + HEADER, true);
    }
    if p >= HEADER && Block(p - HEADER, n + HEADER, true) in bs {
      var i :| 0 <= i < |bs| && bs[i] == Block(p - HEADER, n + HEADER, true);
      LiveAt(bs, lo, hi, i);
    }
  }

  // ----- allocation keeps the list well formed and adds one payload -----

  lemma TakenTiles(bs: seq<Block>, i: nat, total: nat)
    requires WellFormed(bs) && i < |bs| && Fits(bs[i], total) && total >= HEADER
    ensures Tiles(Taken(bs, i, total), 0, HEAP_SIZE)
  {
    assert bs == bs[..i] + [bs[i]] + bs[i + 1..];
    forall x, y | Tiles([bs[i]], x, y)
      ensures Tiles(TakenBlock(bs[i], total), x, y)
    {
      var t := TakenBlock(bs[i], total);
      TilesOne(bs[i], x, y);
      TilesOne(t[0], x, y);
      if |t| == 2 {
        TilesTwo(t[0], t[1], x, y);
      }
    }
    TilesReplace(bs[..i], [bs[i]], TakenBlock(bs[i], total), bs[i + 1..], 0, HEAP_SIZE);
  }

  lemma TakenWellFormed(bs: seq<Block>, i: nat, total: nat)
    requires WellFormed(bs) && i < |bs| && Fits(bs[i], total) && total >= HEADER
    ensures WellFormed(Taken(bs, i, total))
  {
    TakenTiles(bs, i, total);
    var bs' := Taken(bs, i, total);
    var extra := |TakenBlock(bs[i], total)| - 1;
    forall j | 0 < j < |bs'|
      ensures bs'[j - 1].used || bs'[j].used
    {
      if j < i {
        assert bs'[j - 1] == bs[j - 1] && bs'[j] == bs[j];
      } else if j > i + 1 + extra {
        assert bs'[j - 1] == bs[j - 1 - extra] && bs'[j] == bs[j - extra];
      } else if j == i + 1 + extra {
        assert bs'[j] == bs[i + 1];
        assert bs[i].used || bs[i + 1].used;
      }
    }
  }

  /** Exactly one payload comes to life, and it was not live before. */
  lemma TakenLive(bs: seq<Block>, i: nat, total: nat)
    requires WellFormed(bs) && i < |bs| && Fits(bs[i], total) && total >= HEADER
    ensures var p, b := bs[i].addr + HEADER, TakenBlock(bs[i], total)[0];
      p !in Live(bs) && Live(Taken(bs, i, total)) == Live(bs)[p := b.size - HEADER] && total <= b.size <= total + HEADER
  {
    var bs', b := Taken(bs, i, total), TakenBlock(bs[i], total)[0];
    var p := bs[i].addr + HEADER;
    TakenTiles(bs, i, total);
    LiveOfUnused(bs, 0, HEAP_SIZE, i);
    var m, m' := Live(bs)[p := b.size - HEADER], Live(bs');
    assert bs'[i] == b;
    LiveAt(bs', 0, HEAP_SIZE, i);
    forall q: nat
      ensures q in m <==> q in m'
      ensures q in m && q in m' ==> m[q] == m'[q]
    {
      if q != p && q in m {
        LiveIff(bs, 0, HEAP_SIZE, q, m[q]);
        LiveIff(bs', 0, HEAP_SIZE, q, m[q]);
        TakenMembers(bs, i, total, Block(q - HEADER, m[q] + HEADER, true));
      }
      if q != p && q in m' {
        LiveIff(bs, 0, HEAP_SIZE, q, m'[q]);
        LiveIff(bs', 0, HEAP_SIZE, q, m'[q]);
        TakenMembers(bs, i, total, Block(q - HEADER, m'[q] + HEADER, true));
      }
    }
    assert m == m';
  }

  lemma TakenMembers(bs: seq<Block>, i: nat, total: nat, x: Block)
    requires i < |bs| && Fits(bs[i], total) && x.used && x.addr != bs[i].addr
    ensures x in bs <==> x in Taken(bs, i, total)
  {
    assert bs == bs[..i] + [bs[i]] + bs[i + 1..];
  }

  // ----- release keeps the list well formed and removes one payload -----

  lemma {:induction false} TilesSum(bs: seq<Block>, lo: nat, hi: nat)
    requires Tiles(bs, lo, hi)
    ensures SizeSum(bs) == hi - lo && (bs != [] ==> bs[0].addr == lo && SizeSum(bs) >= HEADER)
    decreases |bs|
  {
    if bs != [] {
      TilesSum(bs[1..], End(bs[0]), hi);
    }
  }

  lemma ReleasedTiles(bs: seq<Block>, i: nat)
    requires WellFormed(bs) && i < |bs|
    ensures Tiles(Released(bs, i), 0, HEAP_SIZE)
  {
    RunAround(bs, i);
    hide RunStart, RunEnd, Tiles, SizeSum;
    var i0, i1 := RunStart(bs, i), RunEnd(bs, i);
    var run := bs[i0..i1];
    assert bs == bs[..i0] + run + bs[i1..];
    MergedTiles(run);
    TilesReplace(bs[..i0], run, [Block(bs[i0].addr, SizeSum(run), false)], bs[i1..], 0, HEAP_SIZE);
  }

  /** One free block covers the bytes of several. */
  lemma MergedTiles(run: seq<Block>)
    requires run != []
    ensures forall x, y :: Tiles(run, x, y) ==> Tiles([Block(run[0].addr, SizeSum(run), false)], x, y)
  {
    var one := Block(run[0].addr, SizeSum(run), false);
    forall x, y | Tiles(run, x, y)
      ensures Tiles([one], x, y)
    {
      TilesSum(run, x, y);
    }
  }

  lemma ReleasedWellFormed(bs: seq<Block>, i: nat)
    requires WellFormed(bs) && i < |bs| && bs[i].used
    ensures WellFormed(Released(bs, i))
  {
    ReleasedTiles(bs, i);
    var i0, i1 := RunStart(bs, i), RunEnd(bs, i);
    var bs' := Released(bs, i);
    forall j | 0 < j < |bs'|
      ensures bs'[j - 1].used || bs'[j].used
    {
      if j < i0 {
        assert bs'[j - 1] == bs[j - 1] && bs'[j] == bs[j];
      } else if j == i0 {
        assert bs'[j - 1] == bs[i0 - 1];
        assert bs[i0 - 1].used;
      } else {
        var k := j - i0 - 1 + i1;
        assert bs'[j] == bs[k] && (bs[k - 1].used || bs[k].used);
        if j > i0 + 1 {
          assert bs'[j - 1] == bs[k - 1];
        }
      }
    }
  }

  lemma ReleasedLive(bs: seq<Block>, i: nat)
    requires WellFormed(bs) && i < |bs| && bs[i].used
    ensures Live(Released(bs, i)) == Live(bs) - {bs[i].addr + HEADER}
  {
    hide Live, Released, Tiles, Coalesced, RunStart, RunEnd;
    var bs' := Released(bs, i);
    var p := bs[i].addr + HEADER;
    ReleasedTiles(bs, i);
    var m, m' := Live(bs) - {p}, Live(bs');
    forall q: nat
      ensures q in m <==> q in m'
      ensures q in m && q in m' ==> m[q] == m'[q]
    {
      if q in m {
        LiveIff(bs, 0, HEAP_SIZE, q, m[q]);
        LiveIff(bs', 0, HEAP_SIZE, q, m[q]);
        ReleasedMembers(bs, i, Block(q - HEADER, m[q] + HEADER, true));
      }
      if q in m' {
        LiveIff(bs, 0, HEAP_SIZE, q, m'[q]);
        LiveIff(bs', 0, HEAP_SIZE, q, m'[q]);
        ReleasedMembers(bs, i, Block(q - HEADER, m'[q] + HEADER, true));
      }
    }
    assert m == m';
  }

  lemma ReleasedMembers(bs: seq<Block>, i: nat, x: Block)
    requires WellFormed(bs) && i < |bs| && bs[i].used && x.used
    ensures x in Released(bs, i) <==> x in bs && x.addr != bs[i].addr
  {
    hide Live, Tiles, SizeSum, Coalesced;
    var a, b := bs[..RunStart(bs, i)], bs[RunEnd(bs, i)..];
    assert x in Released(bs, i) <==> x in a || x in b;
    TilesOrder(bs, 0, HEAP_SIZE);
    if x in bs && x.addr != bs[i].addr {
      OutsideMember(bs, i, x);
    }
  }

  lemma OutsideMember(bs: seq<Block>, i: nat, x: Block)
    requires i < |bs| && x in bs && x.used && x.addr != bs[i].addr
    ensures x in bs[..RunStart(bs, i)] || x in bs[RunEnd(bs, i)..]
  {
    var j :| 0 <= j < |bs| && bs[j] == x;
    OutsideRun(bs, i, j);
    if j < RunStart(bs, i) {
      assert bs[..RunStart(bs, i)][j] == x;
    } else {
      assert bs[RunEnd(bs, i)..][j - RunEnd(bs, i)] == x;
    }
  }

  lemma OutsideRun(bs: seq<Block>, i: nat, j: nat)
    requires i < |bs| && j < |bs| && bs[j].used && j != i
    ensures j < RunStart(bs, i) || RunEnd(bs, i) <= j
  {
  }

  // ----- laws of the allocator -----

  /** Releasing what was just taken restores the block list exactly. */
  lemma ReleaseUndoesTake(bs: seq<Block>, i: nat, total: nat)
    requires WellFormed(bs) && i < |bs| && Fits(bs[i], total) && total >= HEADER
    ensures Released(Taken(bs, i, total), i) == bs
  {
    var t := TakenBlock(bs[i], total);
    var bs' := Taken(bs, i, total);
    var a, b := bs[..i], bs[i + 1..];
    assert bs'[..i] == a && bs'[i] == t[0];
    if i > 0 {
      assert bs'[i - 1] == bs[i - 1] && bs[i - 1].used;
    }
    if b != [] {
      assert bs'[i + |t|] == b[0] == bs[i + 1] && bs[i + 1].used;
    }
    assert RunStart(bs', i) == i && RunEnd(bs', i) == i + |t|;
    assert bs'[i..i + |t|] == t && bs'[i + |t|..] == b;
    TakenSize(bs[i], total);
    assert bs == a + [bs[i]] + b;
  }

  /** Freeing the payload just allocated restores the block list exactly. */
  lemma FreeUndoesAlloc(bs: seq<Block>, i: nat, total: nat, p: nat)
    requires WellFormed(bs) && i < |bs| && Fits(bs[i], total) && total >= HEADER && p == bs[i].addr + HEADER
    requires p in Live(Taken(bs, i, total))
    ensures Released(Taken(bs, i, total), BlockOf(Taken(bs, i, total), p)) == bs
  {
    hide Live, Released, WellFormed;
    var bs' := Taken(bs, i, total);
    TakenWellFormed(bs, i, total);
    ReleaseUndoesTake(bs, i, total);
    assert bs'[i] == TakenBlock(bs[i], total)[0];
    AddrApart(bs', i);
  }

  lemma TakenSize(x: Block, total: nat)
    requires Fits(x, total)
    ensures SizeSum(TakenBlock(x, total)) == x.size
  {
    var t := TakenBlock(x, total);
    TilesOne(t[0], 0, 0);
    if |t| == 2 {
      TilesTwo(t[0], t[1], 0, 0);
    }
  }

  /** Without live payloads there is one free block: the heap as `heap_init` leaves it. */
  lemma EmptyIsInitial(bs: seq<Block>)
    requires WellFormed(bs) && Live(bs) == map[]
    ensures bs == [Block(0, HEAP_SIZE, false)]
  {
    forall i | 0 <= i < |bs|
      ensures !bs[i].used
    {
      if bs[i].used {
        LiveAt(bs, 0, HEAP_SIZE, i);
      }
    }
    assert |bs| < 2;
    assert bs == [bs[0]];
    TilesOne(bs[0], 0, HEAP_SIZE);
  }

  ghost function BlockOf(bs: seq<Block>, p: nat): (i: nat)
    requires p in Live(bs)
    ensures i < |bs| && bs[i].used && bs[i].addr + HEADER == p
  {
    LiveWhere(bs, p);
    var i :| 0 <= i < |bs| && bs[i].used && bs[i].addr + HEADER == p && Live(bs)[p] == bs[i].size - HEADER;
    i
  }

  /** Freeing the payloads `ps` one after the other. */
  ghost function FreeAll(bs: seq<Block>, ps: seq<nat>): seq<Block>
    requires WellFormed(bs)
    requires forall p | p in ps :: p in Live(bs)
    requires forall i, j | 0 <= i < j < |ps| :: ps[i] != ps[j]
    decreases |ps|
  {
    if ps == [] then bs
    else
      var i := BlockOf(bs, ps[0]);
      ReleasedWellFormed(bs, i);
      ReleasedLive(bs, i);
      FreeAll(Released(bs, i), ps[1..])
  }

  /** From any well-formed heap, freeing all live payloads, in any order, leads back to the
      single initial block. */
  lemma {:induction false} FreeAllInAnyOrder(bs: seq<Block>, ps: seq<nat>)
    requires WellFormed(bs)
    requires forall p :: p in ps <==> p in Live(bs)
    requires forall i, j | 0 <= i < j < |ps| :: ps[i] != ps[j]
    ensures FreeAll(bs, ps) == [Block(0, HEAP_SIZE, false)]
    decreases |ps|
  {
    if ps == [] {
      assert Live(bs) == map[] by {
        forall p: nat
          ensures p !in Live(bs)
        {
          assert p !in ps;
        }
      }
      EmptyIsInitial(bs);
    } else {
      var i := BlockOf(bs, ps[0]);
      ReleasedWellFormed(bs, i);
      ReleasedLive(bs, i);
      FreeAllInAnyOrder(Released(bs, i), ps[1..]);
    }
  }

  /** A heap that serves `n` requests serves the first with its lowest fit, and then `n - 1` more. */
  lemma ServesFirst(bs: seq<Block>, total: nat, n: nat)
    requires n > 0 && Serves(bs, total, n)
    ensures exists i: nat :: LowestFit(bs, i, total)
    ensures forall i: nat | LowestFit(bs, i, total) :: Serves(Taken(bs, i, total), total, n - 1)
  {
    var i: nat :| LowestFit(bs, i, total) && Serves(Taken(bs, i, total), total, n - 1);
    forall j: nat | LowestFit(bs, j, total)
      ensures j == i
    {
    }
  }

  // ----- how many requests the heap can serve -----

  lemma {:induction false} RoomConcat(a: seq<Block>, b: seq<Block>, total: nat)
    requires total > 0
    ensures Room(a + b, total) == Room(a, total) + Room(b, total)
  {
    if a == [] {
      assert a + b == b;
    } else {
      assert (a + b)[0] == a[0] && (a + b)[1..] == a[1..] + b;
      RoomConcat(a[1..], b, total);
    }
  }

  lemma RoomOne(b: Block, total: nat)
    requires total > 0
    ensures Room([b], total) == Portions(b, total)
  {
    assert [b][1..] == [];
  }

  /** Without a fitting block there is no room, and a fitting block is room. */
  lemma {:induction false} RoomZero(bs: seq<Block>, total: nat)
    requires total > 0
    ensures Room(bs, total) == 0 <==> forall i | 0 <= i < |bs| :: !Fits(bs[i], total)
  {
    if bs != [] {
      RoomZero(bs[1..], total);
      OnePortion(bs[0], total);
      assert forall i | 0 < i < |bs| :: bs[i] == bs[1..][i - 1];
      if Room(bs[1..], total) != 0 {
        var j :| 0 <= j < |bs[1..]| && Fits(bs[1..][j], total);
        assert Fits(bs[j + 1], total);
      }
    }
  }

  lemma OnePortion(b: Block, total: nat)
    requires total > 0
    ensures Portions(b, total) > 0 <==> Fits(b, total)
  {
    if b.size >= total {
      OneMore(b.size, total);
    } else {
      ModUnique(b.size, 0, b.size, total);
    }
  }

  /** Serving a request takes exactly one portion, whether or not the block is split. */
  lemma RoomTaken(bs: seq<Block>, i: nat, total: nat)
    requires i < |bs| && Fits(bs[i], total) && total > HEADER
    ensures Room(bs, total) > 0 && Room(Taken(bs, i, total), total) == Room(bs, total) - 1
  {
    hide Room, TakenBlock, Fits;
    var t := TakenBlock(bs[i], total);
    assert bs == bs[..i] + [bs[i]] + bs[i + 1..];
    RoomConcat(bs[..i] + [bs[i]], bs[i + 1..], total);
    RoomConcat(bs[..i], [bs[i]], total);
    RoomConcat(bs[..i] + t, bs[i + 1..], total);
    RoomConcat(bs[..i], t, total);
    RoomOne(bs[i], total);
    RoomTakenBlock(bs[i], total);
  }

  /** What `heap_alloc` does to the room for blocks of the size it was asked for. */
  lemma RoomAfterAlloc(bs: seq<Block>, bs': seq<Block>, p: nat, total: nat)
    requires total > HEADER && (p == 0 <==> forall b | b in bs :: b.used || b.size < total)
    requires p == 0 ==> bs' == bs
    requires p != 0 ==> exists i: nat ::
      LowestFit(bs, i, total) && p == bs[i].addr + HEADER && bs' == Taken(bs, i, total)
    ensures p == 0 <==> Room(bs, total) == 0
    ensures Room(bs', total) == Room(bs, total) - if p == 0 then 0 else 1
  {
    hide Room;
    RoomZero(bs, total);
    assert forall i | 0 <= i < |bs| :: bs[i] in bs;
    if p != 0 {
      var i: nat :| LowestFit(bs, i, total) && p == bs[i].addr + HEADER && bs' == Taken(bs, i, total);
      RoomTaken(bs, i, total);
    }
  }

  lemma RoomTakenBlock(b: Block, total: nat)
    requires Fits(b, total) && total > HEADER
    ensures Portions(b, total) == Room(TakenBlock(b, total), total) + 1
  {
    var t := TakenBlock(b, total);
    assert t[1..] == if |t| == 2 then [t[1]] else [];
    if |t| == 2 {
      RoomOne(t[1], total);
      OneMore(b.size, total);
    } else {
      ModUnique(b.size, 1, b.size - total, total);
    }
  }

  /** For requests of another size `t`, an allocation costs at most the portions in the bytes taken
      and one more. */
  lemma RoomForOthers(bs: seq<Block>, i: nat, total: nat, t: nat)
    requires i < |bs| && Fits(bs[i], total) && t > 0
    ensures Room(Taken(bs, i, total), t) + (total + HEADER) / t + 1 >= Room(bs, t)
  {
    hide Room, TakenBlock, Fits;
    var k := TakenBlock(bs[i], total);
    assert bs == bs[..i] + [bs[i]] + bs[i + 1..];
    RoomConcat(bs[..i] + [bs[i]], bs[i + 1..], t);
    RoomConcat(bs[..i], [bs[i]], t);
    RoomConcat(bs[..i] + k, bs[i + 1..], t);
    RoomConcat(bs[..i], k, t);
    RoomOne(bs[i], t);
    OthersInBlock(bs[i], total, t);
  }

  lemma OthersInBlock(b: Block, total: nat, t: nat)
    requires Fits(b, total) && t > 0
    ensures Room(TakenBlock(b, total), t) + (total + HEADER) / t + 1 >= Portions(b, t)
  {
    var k := TakenBlock(b, total);
    assert k[1..] == if |k| == 2 then [k[1]] else [];
    if |k| == 2 {
      RoomOne(k[1], t);
      SumAtMost(b.size - total, total, t);
      QuotientMono(total, total + HEADER, t);
    } else {
      QuotientMono(b.size, total + HEADER, t);
    }
  }

  /** The headers in memory, field by field. */
  lemma LinkedMeans(m: map<int, Header>, bs: seq<Block>, i: nat)
    requires Linked(m, bs) && i < |bs|
    ensures bs[i].addr in m && m[bs[i].addr].size == bs[i].size && m[bs[i].addr].isAlloc == bs[i].used
    ensures m[bs[i].addr].next == if i + 1 < |bs| then bs[i + 1].addr else -1
    ensures m[bs[i].addr].prev == if i > 0 then bs[i - 1].addr else -1
  {
  }

  lemma StartsAtZero(bs: seq<Block>)
    requires WellFormed(bs)
    ensures bs != [] && bs[0].addr == 0
  {
  }

  /** The first fitting block is the lowest. */
  lemma FirstIsLowest(bs: seq<Block>, i: nat, total: nat)
    requires WellFormed(bs) && LowestFit(bs, i, total)
    ensures forall b | b in bs && Fits(b, total) :: bs[i].addr <= b.addr
  {
    TilesOrder(bs, 0, HEAP_SIZE);
  }

  /** Free blocks that are merged, together with the block released, lose no portion. */
  lemma {:induction false} RoomMerged(run: seq<Block>, k: nat, total: nat)
    requires total > 0 && k < |run| && run[k].used
    ensures Room(run, total) + run[k].size / total <= SizeSum(run) / total
  {
    hide Portions;
    RoomWithin(run[1..], total);
    PortionsWithin(run[0], total);
    QuotientsAdd(run[0].size, SizeSum(run[1..]), total);
    if k > 0 {
      RoomMerged(run[1..], k - 1, total);
    } else {
      assert Portions(run[0], total) == 0 by {
        UsedPortions(run[0], total);
      }
    }
  }

  lemma UsedPortions(b: Block, total: nat)
    requires total > 0 && b.used
    ensures Portions(b, total) == 0
  {
  }

  lemma PortionsWithin(b: Block, total: nat)
    requires total > 0
    ensures Portions(b, total) <= b.size / total
  {
  }

  lemma {:induction false} RoomWithin(bs: seq<Block>, total: nat)
    requires total > 0
    ensures Room(bs, total) <= SizeSum(bs) / total
  {
    hide Portions;
    if bs != [] {
      RoomWithin(bs[1..], total);
      PortionsWithin(bs[0], total);
      QuotientsAdd(bs[0].size, SizeSum(bs[1..]), total);
    } else {
      ModUnique(0, 0, 0, total);
    }
  }

  /** A release gives back at least the portions of the released block. */
  lemma RoomReleased(bs: seq<Block>, i: nat, total: nat)
    requires i < |bs| && bs[i].used && total > 0
    ensures Room(Released(bs, i), total) >= Room(bs, total) + bs[i].size / total
  {
    hide Room, RunStart, RunEnd, SizeSum;
    RunAround(bs, i);
    var i0, i1 := RunStart(bs, i), RunEnd(bs, i);
    var run := bs[i0..i1];
    var one := Block(bs[i0].addr, SizeSum(run), false);
    assert bs == bs[..i0] + run + bs[i1..];
    RoomConcat(bs[..i0] + run, bs[i1..], total);
    RoomConcat(bs[..i0], run, total);
    RoomConcat(bs[..i0] + [one], bs[i1..], total);
    RoomConcat(bs[..i0], [one], total);
    RoomOne(one, total);
    RoomMerged(run, i - i0, total);
  }

  lemma RunAround(bs: seq<Block>, i: nat)
    requires i < |bs|
    ensures RunStart(bs, i) <= i < RunEnd(bs, i) <= |bs|
  {
  }

  /** The number of portions is the number of requests that first fit can serve. */
  lemma {:induction false} RoomServes(bs: seq<Block>, total: nat, n: nat)
    requires total > HEADER
    ensures Serves(bs, total, n) <==> n <= Room(bs, total)
    decreases n
  {
    hide Room;
    if n > 0 {
      RoomZero(bs, total);
      if i: nat :| LowestFit(bs, i, total) {
        RoomTaken(bs, i, total);
        RoomServes(Taken(bs, i, total), total, n - 1);
        if Serves(bs, total, n) {
          ServesFirst(bs, total, n);
        }
      } else if Room(bs, total) > 0 {
        var j :| 0 <= j < |bs| && Fits(bs[j], total);
        FirstFitExists(bs, j, total);
      }
    }
  }

  lemma {:induction false} FirstFitExists(bs: seq<Block>, j: nat, total: nat)
    requires j < |bs| && Fits(bs[j], total)
    ensures exists i: nat :: LowestFit(bs, i, total)
  {
    if k :| 0 <= k < j && Fits(bs[k], total) {
      FirstFitExists(bs, k, total);
    } else {
      assert LowestFit(bs, j, total);
    }
  }

  /** Two live payloads overlap neither each other nor any block header. */
  lemma LiveDisjoint(bs: seq<Block>, i: nat, j: nat)
    requires WellFormed(bs) && i < |bs| && j < |bs| && i != j && bs[i].used
    ensures bs[i].addr + HEADER <= End(bs[i]) <= HEAP_SIZE
    ensures End(bs[i]) <= bs[j].addr || End(bs[j]) <= bs[i].addr
  {
    TilesOrder(bs, 0, HEAP_SIZE);
  }

  // ----- what the writes of the allocator do to the links -----

  lemma LiveNonNull(bs: seq<Block>)
    ensures 0 !in Live(bs)
  {
    if 0 in Live(bs) {
      LiveWhere(bs, 0);
    }
  }

  lemma AddrApart(bs: seq<Block>, i: nat)
    requires WellFormed(bs) && i < |bs|
    ensures forall k | 0 <= k < |bs| && k != i :: bs[k].addr != bs[i].addr
  {
    TilesOrder(bs, 0, HEAP_SIZE);
  }

  /** No block starts inside another one. */
  lemma AddrInside(bs: seq<Block>, i: nat, x: nat)
    requires WellFormed(bs) && i < |bs| && bs[i].addr < x < End(bs[i])
    ensures forall k | 0 <= k < |bs| :: bs[k].addr != x
  {
    TilesOrder(bs, 0, HEAP_SIZE);
  }

  lemma NeighbourOrder(bs: seq<Block>, i: nat)
    requires WellFormed(bs) && i < |bs|
    ensures i > 0 ==> bs[i - 1].addr < bs[i].addr
    ensures i + 1 < |bs| ==> End(bs[i]) <= bs[i + 1].addr
    ensures i + 2 < |bs| ==> bs[i + 1].addr < bs[i + 2].addr
    ensures bs[i].size >= HEADER
  {
    TilesOrder(bs, 0, HEAP_SIZE);
  }

  lemma RunSize(bs: seq<Block>, i: nat)
    requires i < |bs|
    ensures SizeSum(bs[RunStart(bs, i)..RunEnd(bs, i)]) ==
      (if RunStart(bs, i) < i then bs[i - 1].size else 0) + bs[i].size +
      (if RunEnd(bs, i) > i + 1 then bs[i + 1].size else 0)
  {
    var i0, i1 := RunStart(bs, i), RunEnd(bs, i);
    assert SizeSum(bs[i..i1]) == bs[i].size + (if i1 > i + 1 then bs[i + 1].size else 0) by {
      if i1 > i + 1 {
        assert i1 == i + 2 && bs[i..i + 2] == [bs[i], bs[i + 1]];
        TilesTwo(bs[i], bs[i + 1], 0, 0);
      } else {
        assert i1 == i + 1 && bs[i..i + 1] == [bs[i]];
        TilesOne(bs[i], 0, 0);
      }
    }
    if i0 < i {
      assert bs[i0..i1][1..] == bs[i..i1];
    }
  }

  lemma TakeLinked(m: map<int, Header>, m': map<int, Header>, bs: seq<Block>, i: nat, total: nat)
    requires WellFormed(bs) && Linked(m, bs) && i < |bs| && Fits(bs[i], total) && total >= HEADER
    requires bs[i].addr in m' && (|TakenBlock(bs[i], total)| == 2 ==> bs[i].addr + total in m')
    requires m'[bs[i].addr] == Header(TakenBlock(bs[i], total)[0].size, true,
               if |TakenBlock(bs[i], total)| == 2 then bs[i].addr + total else NextOf(bs, i), PrevOf(bs, i))
    requires |TakenBlock(bs[i], total)| == 2 ==>
               m'[bs[i].addr + total] == Header(bs[i].size - total, false, NextOf(bs, i), bs[i].addr)
    requires i + 1 < |bs| ==> bs[i + 1].addr in m' && m'[bs[i + 1].addr] == HeaderOf(bs, i + 1).(prev :=
               TakenBlock(bs[i], total)[|TakenBlock(bs[i], total)| - 1].addr)
    requires forall a | a in m && a != bs[i].addr && a != NextOf(bs, i) &&
        (|TakenBlock(bs[i], total)| == 2 ==> a != bs[i].addr + total) ::
               a in m' && m'[a] == m[a]
    ensures Linked(m', Taken(bs, i, total))
  {
    AddrApart(bs, i);
    if i + 1 < |bs| {
      AddrApart(bs, i + 1);
    }
    if |TakenBlock(bs[i], total)| == 2 {
      AddrInside(bs, i, bs[i].addr + total);
    }
    var t := TakenBlock(bs[i], total);
    var bs' := Taken(bs, i, total);
    var e := |t| - 1;
    forall j | 0 <= j < |bs'|
      ensures bs'[j].addr in m' && m'[bs'[j].addr] == HeaderOf(bs', j)
    {
      if j < i {
        assert bs'[j] == bs[j] && NextOf(bs', j) == NextOf(bs, j) && PrevOf(bs', j) == PrevOf(bs, j);
      } else if j > i + e {
        var k := j - e;
        assert bs'[j] == bs[k] && NextOf(bs', j) == NextOf(bs, k);
        if k > i + 1 {
          assert PrevOf(bs', j) == PrevOf(bs, k);
        } else {
          assert bs'[j - 1] == t[e];
        }
      } else {
        assert bs'[j] == t[j - i];
        if j == i {
          assert PrevOf(bs', j) == PrevOf(bs, i);
        }
        if j == i + e {
          assert NextOf(bs', j) == NextOf(bs, i);
        }
      }
    }
  }

  /** Blocks outside the released run and its successor are not written. */
  lemma OutsideRunApart(bs: seq<Block>, i: nat, k: nat)
    requires WellFormed(bs) && i < |bs| && k < |bs| && (k < RunStart(bs, i) || k > RunEnd(bs, i))
    ensures bs[k].addr != bs[i].addr && bs[k].addr != bs[RunStart(bs, i)].addr
    ensures bs[k].addr != NextOf(bs, i) && bs[k].addr != NextOf(bs, RunEnd(bs, i) - 1)
  {
    TilesOrder(bs, 0, HEAP_SIZE);
  }

  lemma FreeLinked(m: map<int, Header>, m': map<int, Header>, bs: seq<Block>, i: nat)
    requires WellFormed(bs) && Linked(m, bs) && i < |bs| && bs[i].used
    requires bs[RunStart(bs, i)].addr in m'
    requires m'[bs[RunStart(bs, i)].addr] == RunHeader(bs, i)
    requires RunEnd(bs, i) < |bs| ==>
      var next := bs[RunEnd(bs, i)].addr;
      next in m' && m'[next] == HeaderOf(bs, RunEnd(bs, i)).(prev := bs[RunStart(bs, i)].addr)
    requires forall a | a in m && a != bs[i].addr && a != NextOf(bs, i) && a != NextOf(bs, RunEnd(bs, i) - 1) &&
               a != bs[RunStart(bs, i)].addr :: a in m' && m'[a] == m[a]
    ensures Linked(m', Released(bs, i))
  {
    var i0, i1 := RunStart(bs, i), RunEnd(bs, i);
    var bs' := Released(bs, i);
    forall j | 0 <= j < |bs'|
      ensures bs'[j].addr in m' && m'[bs'[j].addr] == HeaderOf(bs', j)
    {
      ReleasedHeader(bs, i, j);
      if j < i0 {
        OutsideRunApart(bs, i, j);
      } else if j > i0 + 1 {
        OutsideRunApart(bs, i, j - i0 - 1 + i1);
      }
    }
  }

  ghost function RunHeader(bs: seq<Block>, i: nat): Header
    requires i < |bs|
  {
    var i0, i1 := RunStart(bs, i), RunEnd(bs, i);
    Header(SizeSum(bs[i0..i1]), false, NextOf(bs, i1 - 1), PrevOf(bs, i0))
  }

  /** The headers after a release: only the run and its successor have new ones. */
  lemma ReleasedHeader(bs: seq<Block>, i: nat, j: nat)
    requires i < |bs| && j < |Released(bs, i)|
    ensures j < RunStart(bs, i) ==>
      Released(bs, i)[j].addr == bs[j].addr && HeaderOf(Released(bs, i), j) == HeaderOf(bs, j)
    ensures j == RunStart(bs, i) ==>
      Released(bs, i)[j].addr == bs[j].addr && HeaderOf(Released(bs, i), j) == RunHeader(bs, i)
    ensures var k := j - RunStart(bs, i) - 1 + RunEnd(bs, i);
      j > RunStart(bs, i) ==> k < |bs| && Released(bs, i)[j].addr == bs[k].addr
    ensures var k := j - RunStart(bs, i) - 1 + RunEnd(bs, i);
      j > RunStart(bs, i) + 1 ==> HeaderOf(Released(bs, i), j) == HeaderOf(bs, k)
    ensures var k := j - RunStart(bs, i) - 1 + RunEnd(bs, i);
      j == RunStart(bs, i) + 1 ==> HeaderOf(Released(bs, i), j) == HeaderOf(bs, k).(prev := bs[RunStart(bs, i)].addr)
  {
    var bs', i0, i1 := Released(bs, i), RunStart(bs, i), RunEnd(bs, i);
    if j < i0 {
      assert bs'[j] == bs[j] && PrevOf(bs', j) == PrevOf(bs, j);
      assert j + 1 < |bs'| && bs'[j + 1].addr == bs[j + 1].addr;
    } else if j > i0 {
      var k := j - i0 - 1 + i1;
      assert bs'[j] == bs[k] && NextOf(bs', j) == NextOf(bs, k);
      if j > i0 + 1 {
        assert PrevOf(bs', j) == PrevOf(bs, k);
      }
    } else {
      assert PrevOf(bs', j) == PrevOf(bs, i0) && NextOf(bs', j) == NextOf(bs, i1 - 1);
    }
  }

  // ----- the allocator -----

  class Heap {
    /** Memory at header positions; stale headers inside payloads may remain. */
    var hdr: map<int, Header>
    ghost var blocks: seq<Block>

    ghost predicate Valid()
      reads this
    {
      WellFormed(blocks) && Linked(hdr, blocks)
    }

    ghost function Payloads(): map<nat, nat>
      reads this
    {
      Live(blocks)
    }

    /** `heap_init`. */
    constructor ()
      ensures Valid() && blocks == [Block(0, HEAP_SIZE, false)] && Payloads() == map[]
    {
      hdr := map[0 := Header(HEAP_SIZE, false, NIL, NIL)];
      blocks := [Block(0, HEAP_SIZE, false)];
      new;
      TilesOne(blocks[0], 0, HEAP_SIZE);
      assert blocks[1..] == [];
      assert Live([]) == map[];
    }

    /** `heap_alloc`: the lowest fitting block, or 0 (NULL) exactly if none fits. */
    method Alloc(size: nat) returns (p: nat)
      requires Valid() && size + HEADER < 0x1_0000_0000
      modifies this
      ensures Valid()
      ensures p == 0 ==> blocks == old(blocks) && hdr == old(hdr)
      ensures p != 0 ==> exists i: nat ::
        LowestFit(old(blocks), i, size + HEADER) && p == old(blocks)[i].addr + HEADER &&
        blocks == Taken(old(blocks), i, size + HEADER)
      ensures p != 0 ==> Gained(old(Payloads()), Payloads(), p, size)
      ensures p != 0 ==> exists b ::
        b in old(blocks) && !b.used && p == b.addr + HEADER &&
        Payloads()[p] == if b.size > size + 2 * HEADER then size else b.size - HEADER
      ensures p == 0 <==> forall b | b in old(blocks) :: b.used || b.size < size + HEADER
      ensures p != 0 ==> forall b | b in old(blocks) && !b.used && b.size >= size + HEADER :: p <= b.addr + HEADER
    {
      hide Live, Taken, TakenBlock, WellFormed, Linked, Gained;
      var total := size + HEADER;
      var current, i := FirstFit(total);
      if current == NIL {
        return 0;
      }
      FirstIsLowest(blocks, i, total);
      Take(current, total, i);
      p := current + HEADER;
      assert old(blocks)[i] in old(blocks) && LowestFit(old(blocks), i, size + HEADER);
    }

    /** The search of `heap_alloc` along the links. */
    method FirstFit(total: nat) returns (current: int, ghost i: nat)
      requires Valid()
      ensures current == NIL <==> forall b | b in blocks :: b.used || b.size < total
      ensures current != NIL ==> LowestFit(blocks, i, total) && current == blocks[i].addr
    {
      StartsAtZero(blocks);
      hide WellFormed;
      current, i := 0, 0;
      while current != NIL
        invariant 0 <= i <= |blocks|
        invariant current == if i < |blocks| then blocks[i].addr else NIL
        invariant forall j | 0 <= j < i :: !Fits(blocks[j], total)
        decreases |blocks| - i
      {
        assert Linked(hdr, blocks) && blocks[i].addr in hdr;
        if !hdr[current].isAlloc && hdr[current].size >= total {
          assert blocks[i] in blocks;
          return;
        }
        current := hdr[current].next;
        i := i + 1;
      }
    }

    /** The body of `heap_alloc` once a fitting block is found. */
    method Take(current: int, total: nat, ghost i: nat)
      requires Valid() && i < |blocks| && current == blocks[i].addr && Fits(blocks[i], total) && total >= HEADER
      modifies this
      ensures Valid() && blocks == Taken(old(blocks), i, total)
      ensures Gained(old(Payloads()), Payloads(), current + HEADER, total - HEADER)
      ensures var b := old(blocks)[i];
        Payloads()[current + HEADER] == (if b.size > total + HEADER then total else b.size) - HEADER
    {
      Claim(current, total, i);
      TakenWellFormed(blocks, i, total);
      TakenLive(blocks, i, total);
      blocks := Taken(blocks, i, total);
    }

    method Claim(current: int, total: nat, ghost i: nat)
      requires Valid() && i < |blocks| && current == blocks[i].addr && Fits(blocks[i], total) && total >= HEADER
      modifies this`hdr
      ensures Linked(hdr, Taken(blocks, i, total))
    {
      hide WellFormed, Taken, Live, Tiles;
      ghost var m0 := hdr;
      assert current in hdr && hdr[current] == HeaderOf(blocks, i);
      assert i + 1 < |blocks| ==> blocks[i + 1].addr in hdr && hdr[blocks[i + 1].addr] == HeaderOf(blocks, i + 1);
      NeighbourOrder(blocks, i);
      if hdr[current].size > total + HEADER {
        Split(current, total);
      }
      hdr := hdr[current := hdr[current].(isAlloc := true)];
      TakeLinked(m0, hdr, blocks, i, total);
    }

    /** The remainder of a block becomes a free block of its own. */
    method Split(current: int, total: nat)
      requires current in hdr && hdr[current].size > total > 0
      requires hdr[current].next == NIL || (hdr[current].next in hdr && hdr[current].next > current + total)
      requires 0 <= current
      modifies this`hdr
      ensures current in hdr && hdr[current] == old(hdr[current]).(next := current + total, size := total)
      ensures current + total in hdr
      ensures hdr[current + total] == Header(old(hdr[current].size) - total, false, old(hdr[current].next), current)
      ensures var nx := old(hdr[current].next); nx != NIL ==>
        nx in hdr && hdr[nx] == old(hdr)[nx].(prev := current + total)
      ensures forall a | a in old(hdr) && a != current && a != current + total && a != old(hdr[current].next) ::
        a in hdr && hdr[a] == old(hdr)[a]
    {
      var newBlock := current + total;
      hdr := hdr[newBlock := Header(hdr[current].size - total, false, hdr[current].next, current)];
      if hdr[current].next != NIL {
        hdr := hdr[hdr[current].next := hdr[hdr[current].next].(prev := newBlock)];
      }
      hdr := hdr[current := hdr[current].(next := newBlock)];
      hdr := hdr[current := hdr[current].(size := total)];
    }

    /** `heap_free`; freeing NULL does nothing. */
    method Free(p: nat)
      requires Valid() && (p == 0 || p in Payloads())
      modifies this
      ensures Valid()
      ensures p == 0 ==> blocks == old(blocks)
      ensures p != 0 ==> blocks == Released(old(blocks), BlockOf(old(blocks), p))
      ensures Payloads() == old(Payloads()) - {p}
    {
      if p == 0 {
        LiveNonNull(blocks);
        return;
      }
      ghost var i := BlockOf(blocks, p);
      Unlink(p - HEADER, i);
      ReleasedWellFormed(blocks, i);
      ReleasedLive(blocks, i);
      blocks := Released(blocks, i);
    }

    /** The body of `heap_free`: the block is marked free and merged with free neighbours. */
    method Unlink(block: int, ghost i: nat)
      requires Valid() && i < |blocks| && blocks[i].used && block == blocks[i].addr
      modifies this`hdr
      ensures Linked(hdr, Released(blocks, i))
    {
      hide WellFormed, Released, Live, Tiles;
      NeighbourOrder(blocks, i);
      RunSize(blocks, i);
      ghost var m0 := hdr;
      assert block in hdr && hdr[block] == HeaderOf(blocks, i);
      assert i + 1 < |blocks| ==> blocks[i + 1].addr in hdr && hdr[blocks[i + 1].addr] == HeaderOf(blocks, i + 1);
      assert i + 2 < |blocks| ==> blocks[i + 2].addr in hdr && hdr[blocks[i + 2].addr] == HeaderOf(blocks, i + 2);
      assert i > 0 ==> blocks[i - 1].addr in hdr && hdr[blocks[i - 1].addr] == HeaderOf(blocks, i - 1);
      hdr := hdr[block := hdr[block].(isAlloc := false)];
      if hdr[block].next != NIL && !hdr[hdr[block].next].isAlloc {
        AbsorbNext(block);
      }
      if hdr[block].prev != NIL && !hdr[hdr[block].prev].isAlloc {
        AbsorbNext(hdr[block].prev);  // its `next` is `block`
      }
      FreeLinked(m0, hdr, blocks, i);
    }

    /** A block takes over its successor: the merging step, used for both neighbours. */
    method AbsorbNext(block: int)
      requires block in hdr && block >= 0
      requires hdr[block].next > block && hdr[block].next in hdr
      requires var nx := hdr[block].next; hdr[nx].next == NIL || (hdr[nx].next > nx && hdr[nx].next in hdr)
      modifies this`hdr
      ensures var nx := old(hdr[block].next);
        block in hdr &&
        hdr[block] == old(hdr[block]).(size := old(hdr[block].size) + old(hdr[nx].size), next := old(hdr[nx].next))
      ensures var nx2 := old(hdr[hdr[block].next].next);
        nx2 != NIL ==> nx2 in hdr && hdr[nx2] == old(hdr)[nx2].(prev := block)
      ensures forall a | a in old(hdr) && a != block && a != old(hdr[hdr[block].next].next) ::
        a in hdr && hdr[a] == old(hdr)[a]
    {
      hdr := hdr[block := hdr[block].(size := hdr[block].size + hdr[hdr[block].next].size)];
      hdr := hdr[block := hdr[block].(next := hdr[hdr[block].next].next)];
      if hdr[block].next != NIL {
        hdr := hdr[hdr[block].next := hdr[hdr[block].next].(prev := block)];
      }
    }
  }
}
