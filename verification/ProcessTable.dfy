/** Creating processes: the slot, the page table from the heap, the memory from the map. */
module ProcessTable {
  import KernelHeap
  import MM = MemoryMapping
  import ImageLoading

  /** MAX_PCB_SIZE: slots, and entries of the table of control blocks. */
  const SLOTS := 256
  /** sizeof(page_t). */
  const PAGE_TABLE := 4104
  /** INITIAL_PROC_SIZE, in KiB, and in units of the memory map. */
  const PROCESS_KIB := 1024
  const PROCESS_UNITS := 8
  const PROCESS_ENTRIES := 3
  const PROCESS_BYTES := 1024 * 1024

  type U8 = x: int | 0 <= x < 256

  datatype Pcb = Pcb(id: nat, parent: U8, entry: MM.U64, page: nat, mmAddr: MM.U16, sp: nat)

  // ----- how many page tables the heap can hold -----

  /** Payloads that can be page tables. */
  ghost predicate ArePages(live: map<nat, nat>, pages: set<nat>) {
    forall p | p in pages :: p in live && live[p] >= PAGE_TABLE
  }

  lemma {:induction false} PagesFit(bs: seq<KernelHeap.Block>, lo: nat, hi: nat, pages: set<nat>)
    requires KernelHeap.Tiles(bs, lo, hi) && ArePages(KernelHeap.Live(bs), pages)
    ensures |pages| * (PAGE_TABLE + KernelHeap.HEADER) <= hi - lo
    decreases |bs|
  {
    if bs == [] {
      assert KernelHeap.Live(bs) == map[] && forall p | p in pages :: p in KernelHeap.Live(bs);
      assert pages == {};
    } else {
      var b := bs[0];
      var first := b.addr + KernelHeap.HEADER;
      var others := pages - {first};
      assert ArePages(KernelHeap.Live(bs[1..]), others);
      PagesFit(bs[1..], KernelHeap.End(b), hi, others);
      if first in pages {
        NotAgain(bs[1..], KernelHeap.End(b), hi, first);
        assert b.used && b.size - KernelHeap.HEADER >= PAGE_TABLE;
        assert pages == others + {first};
      } else {
        assert pages == others;
      }
    }
  }

  /** Later blocks lie higher. */
  lemma {:induction false} NotAgain(bs: seq<KernelHeap.Block>, lo: nat, hi: nat, p: nat)
    requires KernelHeap.Tiles(bs, lo, hi) && p < lo + KernelHeap.HEADER
    ensures p !in KernelHeap.Live(bs)
    decreases |bs|
  {
    if bs != [] {
      NotAgain(bs[1..], KernelHeap.End(bs[0]), hi, p);
    }
  }

  // ----- the table -----

  class ProcessManager {
    const heap: KernelHeap.Heap
    const mm: MM.MemoryManager
    const isAlloc: array<bool>
    const pcbs: array<Pcb>
    /** The units of the memory map that were taken before the first process. */
    ghost const units0: nat

    ghost predicate Valid()
      reads this, heap, mm, mm.map8, isAlloc, pcbs
    {
      heap.Valid() && mm.Valid() && isAlloc.Length == pcbs.Length == SLOTS && !isAlloc[SLOTS - 1] &&
      AllOwned(isAlloc[..], pcbs[..], heap.Payloads()) &&
      AllPlaced(isAlloc[..], pcbs[..], mm.base, mm.map8[..], mm.spTop) &&
      Counted(isAlloc[..], mm.map8[..], mm.spTop, units0)
    }

    /** An empty table over a heap and a memory map. */
    constructor (heap: KernelHeap.Heap, mm: MM.MemoryManager)
      requires heap.Valid() && mm.Valid()
      ensures Valid() && this.heap == heap && this.mm == mm && fresh(isAlloc) && fresh(pcbs)
      ensures units0 == mm.UnitsBelow(mm.spTop) && forall i | 0 <= i < SLOTS :: !isAlloc[i]
    {
      this.heap, this.mm, units0 := heap, mm, mm.UnitsBelow(mm.spTop);
      isAlloc := new bool[SLOTS](_ => false);
      pcbs := new Pcb[SLOTS](_ => Pcb(0, 0, 0, 0, 0, 0));
      new;
      hide MM.Units;
      CountNone(isAlloc[..], SLOTS - 1);
    }

    /** The search of `pm_create`: it always finds a slot, one of the first 25. */
    method FindSlot() returns (slot: nat)
      requires Valid()
      ensures slot <= 24 && !isAlloc[slot] && forall j | 0 <= j < slot :: isAlloc[j]
    {
      slot := 0;
      while slot < SLOTS && isAlloc[slot]
        invariant 0 <= slot <= SLOTS - 1
        invariant forall j | 0 <= j < slot :: isAlloc[j]
      {
        slot := slot + 1;
      }
      AtMost24(isAlloc[..], pcbs[..], heap.blocks, slot);
      CountAll(isAlloc[..], slot);
    }

    /** `pm_create`: the id of the new process, or 0 for NULL with slot, heap and map restored. */
    method Create(entry: MM.U64, parent: U8) returns (id: nat)
      requires Valid()
      modifies heap, mm`spTop, mm.map8, isAlloc, pcbs
      ensures Valid()
      ensures id == 0 ==> isAlloc[..] == old(isAlloc[..]) && heap.blocks == old(heap.blocks)
      ensures id == 0 ==> mm.spTop == old(mm.spTop) && mm.map8[..] == old(mm.map8[..])
      ensures id != 0 ==> 0 < id < SLOTS && isAlloc[..] == old(isAlloc[..])[id - 1 := true]
      ensures id != 0 ==> forall j | 0 <= j < id :: old(isAlloc[j]) == (j != id - 1)
      ensures id != 0 ==> KernelHeap.Gained(old(heap.Payloads()), heap.Payloads(), pcbs[id].page, PAGE_TABLE)
      ensures id != 0 ==> Extended(old(mm.map8[..]), mm.map8[..], old(mm.spTop), mm.spTop)
      ensures id != 0 ==> mm.UnitsBelow(mm.spTop) == old(mm.UnitsBelow(mm.spTop)) + 8
      ensures id != 0 ==> pcbs[id].id == id && pcbs[id].entry == entry && pcbs[id].parent == parent
      ensures forall j | 0 <= j < SLOTS && j != id && (j == 0 || old(isAlloc[j - 1])) :: pcbs[j] == old(pcbs[j])
      ensures id == 0 <==> Room(old(heap.blocks)) == 0 || MM.Refused(old(mm.spTop), PROCESS_KIB)
      ensures id != 0 ==> Room(heap.blocks) == Room(old(heap.blocks)) - 1 && mm.spTop == old(mm.spTop) + 3
    {
      hide AllOwned, AllPlaced, KernelHeap.WellFormed, KernelHeap.Linked, KernelHeap.Live, KernelHeap.Taken;
      hide KernelHeap.Released, MM.Units, MM.AddressOf, MM.Filled, KernelHeap.Gained, Extended, Counted;
      hide KernelHeap.LowestFit, KernelHeap.Fits, KernelHeap.BlockOf, MM.Refused, KernelHeap.Room;
      var slot := FindSlot();
      ghost var used, table := isAlloc[..], pcbs[..];
      isAlloc[slot] := true;
      id := slot + 1;
      pcbs[id] := Pcb(id, parent, 0, 0, 0, 0);
      var page := heap.Alloc(PAGE_TABLE);
      KernelHeap.RoomAfterAlloc(old(heap.blocks), heap.blocks, page, PAGE_TABLE + KernelHeap.HEADER);
      if page == 0 {
        isAlloc[id - 1] := false;
        assert isAlloc[..] == used;
        FreeSlotChanged(used, table, pcbs[..], slot, heap.Payloads(), mm.base, mm.map8[..], mm.spTop);
        return 0;
      }
      GainedPage(old(heap.Payloads()), heap.Payloads(), page);
      var ok := GiveMemory(id, parent, entry, page);
      if !ok {
        Restored(old(heap.blocks), heap.blocks, page);
        heap.Free(page);
        isAlloc[id - 1] := false;
        assert isAlloc[..] == used;
        FreeSlotChanged(used, table, pcbs[..], slot, heap.Payloads(), mm.base, mm.map8[..], mm.spTop);
        return 0;
      }
      SlotFilled(used, table, slot, pcbs[id], old(heap.Payloads()), heap.Payloads());
      SlotPlaced(used, table, slot, pcbs[id], mm.base, old(mm.map8[..]), mm.map8[..], old(mm.spTop), mm.spTop);
      CountedNext(used, slot, old(mm.map8[..]), mm.map8[..], old(mm.spTop), mm.spTop, units0);
      assert isAlloc[..] == used[slot := true] && pcbs[..] == table[id := pcbs[id]];
    }

    /** Takes the memory of the process from the map and completes its control block. */
    method GiveMemory(id: nat, parent: U8, entry: MM.U64, page: nat) returns (ok: bool)
      requires mm.Valid() && id < pcbs.Length == SLOTS
      modifies mm`spTop, mm.map8, pcbs
      ensures mm.Valid() && ok == !MM.Refused(old(mm.spTop), PROCESS_KIB)
      ensures !ok ==> mm.spTop == old(mm.spTop) && mm.map8[..] == old(mm.map8[..]) && pcbs[..] == old(pcbs[..])
      ensures ok ==> pcbs[..] == old(pcbs[..])[id := pcbs[id]]
      ensures ok ==>
        pcbs[id] == Pcb(id, parent, entry, page, old(mm.spTop), StackTop(mm.base, MM.Units(mm.map8[..], old(mm.spTop))))
      ensures ok ==> Extended(old(mm.map8[..]), mm.map8[..], old(mm.spTop), mm.spTop)
      ensures ok ==> mm.spTop == old(mm.spTop) + PROCESS_ENTRIES
      ensures ok ==> mm.UnitsBelow(mm.spTop) == old(mm.UnitsBelow(mm.spTop)) + 8
    {
      hide MM.Units, MM.AddressOf, MM.Filled;
      var topBefore := mm.spTop;
      var mmAddr := mm.Create(PROCESS_KIB);
      if mm.spTop == topBefore {
        return false;
      }
      var realAddr := mm.Find(mmAddr, 0);
      forall a: MM.U16 | a <= topBefore
        ensures MM.Units(mm.map8[..], a) == MM.Units(old(mm.map8[..]), a)
      {
        assert mm.UnitsBelow(a) == old(mm.UnitsBelow(a));
      }
      assert Extended(old(mm.map8[..]), mm.map8[..], topBefore, mm.spTop);
      pcbs[id] := Pcb(id, parent, entry, page, mmAddr, (realAddr + PROCESS_BYTES) % 0x1_0000_0000_0000_0000);
      assert pcbs[..] == old(pcbs[..])[id := pcbs[id]];
      ok := true;
    }
  }

  /** The stack pointer of a process: the 64-bit end of its region. */
  ghost function StackTop(base: MM.U64, first: nat): nat {
    (MM.AddressOf(base, first, 0) + PROCESS_BYTES) % 0x1_0000_0000_0000_0000
  }

  /** The map grew by the units of one process. */
  ghost predicate Extended(was: seq<bv8>, now: seq<bv8>, top: MM.U16, top': MM.U16) {
    |was| == |now| == MM.MAP_BYTES && top <= top' &&
    MM.Units(now, top') == MM.Units(was, top) + PROCESS_UNITS &&
    forall a: MM.U16 | a <= top :: MM.Units(now, a) == MM.Units(was, a)
  }

  lemma GainedPage(live: map<nat, nat>, live': map<nat, nat>, page: nat)
    requires KernelHeap.Gained(live, live', page, PAGE_TABLE)
    ensures page in live'
  {
  }

  lemma Restored(bs: seq<KernelHeap.Block>, bs': seq<KernelHeap.Block>, p: nat)
    requires KernelHeap.WellFormed(bs) && p in KernelHeap.Live(bs')
    requires exists i: nat ::
      KernelHeap.LowestFit(bs, i, PAGE_TABLE + KernelHeap.HEADER) && p == bs[i].addr + KernelHeap.HEADER &&
      bs' == KernelHeap.Taken(bs, i, PAGE_TABLE + KernelHeap.HEADER)
    ensures KernelHeap.Released(bs', KernelHeap.BlockOf(bs', p)) == bs
  {
    var i: nat :| KernelHeap.LowestFit(bs, i, PAGE_TABLE + KernelHeap.HEADER) && p == bs[i].addr + KernelHeap.HEADER &&
      bs' == KernelHeap.Taken(bs, i, PAGE_TABLE + KernelHeap.HEADER);
    KernelHeap.FreeUndoesAlloc(bs, i, PAGE_TABLE + KernelHeap.HEADER, p);
  }

  lemma FreeSlotChanged(isAlloc: seq<bool>, pcbs: seq<Pcb>, pcbs': seq<Pcb>, slot: nat, live: map<nat, nat>,
      base: MM.U64, map8: seq<bv8>, top: MM.U16)
    requires AllOwned(isAlloc, pcbs, live) && AllPlaced(isAlloc, pcbs, base, map8, top)
    requires slot < SLOTS - 1 && !isAlloc[slot] && |pcbs'| == |pcbs|
    requires forall j | 0 <= j < SLOTS && j != slot + 1 :: pcbs'[j] == pcbs[j]
    ensures AllOwned(isAlloc, pcbs', live) && AllPlaced(isAlloc, pcbs', base, map8, top)
  {
    hide MM.AddressOf, MM.Units, Apart;
  }

  lemma SlotFilled(isAlloc: seq<bool>, pcbs: seq<Pcb>, slot: nat, pcb: Pcb, live: map<nat, nat>, live': map<nat, nat>)
    requires AllOwned(isAlloc, pcbs, live) && slot < SLOTS - 1 && !isAlloc[slot]
    requires KernelHeap.Gained(live, live', pcb.page, PAGE_TABLE) && pcb.id == slot + 1
    ensures AllOwned(isAlloc[slot := true], pcbs[slot + 1 := pcb], live')
  {
  }

  lemma SlotPlaced(isAlloc: seq<bool>, pcbs: seq<Pcb>, slot: nat, pcb: Pcb, base: MM.U64,
      was: seq<bv8>, now: seq<bv8>, top: MM.U16, top': MM.U16)
    requires AllPlaced(isAlloc, pcbs, base, was, top) && slot < SLOTS - 1 && !isAlloc[slot]
    requires Extended(was, now, top, top') && pcb.mmAddr == top
    requires pcb.sp == StackTop(base, MM.Units(now, top))
    ensures AllPlaced(isAlloc[slot := true], pcbs[slot + 1 := pcb], base, now, top')
  {
    hide MM.Units, MM.AddressOf, FirstUnit, Apart;
    FirstIsUnits(now, pcb);
    forall i | 0 <= i < SLOTS - 1 && isAlloc[i]
      ensures FirstUnit(now, pcbs[i + 1]) == FirstUnit(was, pcbs[i + 1])
      ensures Apart(FirstUnit(now, pcbs[i + 1]), FirstUnit(now, pcb))
      ensures Apart(FirstUnit(now, pcb), FirstUnit(now, pcbs[i + 1]))
    {
      FirstIsUnits(was, pcbs[i + 1]);
      FirstIsUnits(now, pcbs[i + 1]);
      BelowIsApart(FirstUnit(was, pcbs[i + 1]), MM.Units(was, top));
    }
  }

  lemma FirstIsUnits(map8: seq<bv8>, pcb: Pcb)
    requires |map8| == MM.MAP_BYTES
    ensures FirstUnit(map8, pcb) == MM.Units(map8, pcb.mmAddr)
  {
  }

  lemma BelowIsApart(a: nat, b: nat)
    requires a + PROCESS_UNITS <= b
    ensures Apart(a, b) && Apart(b, a)
  {
  }

  /** No free block can hold a page table. */
  /** How many more page tables the heap can provide. */
  ghost function Room(bs: seq<KernelHeap.Block>): nat {
    KernelHeap.Room(bs, PAGE_TABLE + KernelHeap.HEADER)
  }

  /** Right after `heap_init` there is room for 24. */
  lemma FreshRoom()
    ensures Room([KernelHeap.Block(0, KernelHeap.HEAP_SIZE, false)]) == 24
  {
    KernelHeap.RoomOne(KernelHeap.Block(0, KernelHeap.HEAP_SIZE, false), PAGE_TABLE + KernelHeap.HEADER);
  }

  // ----- at most 24 processes -----

  /** How many of the first `n` slots are in use, and their page tables. */
  ghost function Count(isAlloc: seq<bool>, n: nat): nat
    requires n <= |isAlloc|
  {
    if n == 0 then 0 else Count(isAlloc, n - 1) + if isAlloc[n - 1] then 1 else 0
  }

  ghost function PagesOf(isAlloc: seq<bool>, pcbs: seq<Pcb>, n: nat): set<nat>
    requires n < |pcbs| == |isAlloc|
  {
    if n == 0 then {} else PagesOf(isAlloc, pcbs, n - 1) + if isAlloc[n - 1] then {pcbs[n].page} else {}
  }

  lemma {:induction false} DistinctPages(isAlloc: seq<bool>, pcbs: seq<Pcb>, live: map<nat, nat>, n: nat)
    requires AllOwned(isAlloc, pcbs, live) && n <= SLOTS - 1
    ensures |PagesOf(isAlloc, pcbs, n)| == Count(isAlloc, n) && ArePages(live, PagesOf(isAlloc, pcbs, n))
    ensures forall i | n <= i < SLOTS - 1 && isAlloc[i] :: pcbs[i + 1].page !in PagesOf(isAlloc, pcbs, n)
  {
    if n > 0 {
      DistinctPages(isAlloc, pcbs, live, n - 1);
      assert isAlloc[n - 1] ==> pcbs[(n - 1) + 1] == pcbs[n];
    }
  }

  /** Each process holds a page table, so at most 24 exist, and the table never overflows. */
  lemma AtMost24(isAlloc: seq<bool>, pcbs: seq<Pcb>, bs: seq<KernelHeap.Block>, n: nat)
    requires KernelHeap.WellFormed(bs) && AllOwned(isAlloc, pcbs, KernelHeap.Live(bs)) && n <= SLOTS - 1
    ensures Count(isAlloc, n) <= 24
  {
    DistinctPages(isAlloc, pcbs, KernelHeap.Live(bs), n);
    PagesFit(bs, 0, KernelHeap.HEAP_SIZE, PagesOf(isAlloc, pcbs, n));
  }

  lemma {:induction false} CountNone(isAlloc: seq<bool>, n: nat)
    requires n <= |isAlloc| && forall i | 0 <= i < n :: !isAlloc[i]
    ensures Count(isAlloc, n) == 0
    decreases n
  {
    if n > 0 {
      CountNone(isAlloc, n - 1);
    }
  }

  lemma {:induction false} CountNext(isAlloc: seq<bool>, slot: nat, n: nat)
    requires slot < n <= |isAlloc| && !isAlloc[slot]
    ensures Count(isAlloc[slot := true], n) == Count(isAlloc, n) + 1
    decreases n
  {
    if slot < n - 1 {
      CountNext(isAlloc, slot, n - 1);
    } else {
      CountSame(isAlloc, isAlloc[slot := true], slot);
    }
  }

  lemma {:induction false} CountSame(isAlloc: seq<bool>, isAlloc': seq<bool>, n: nat)
    requires n <= |isAlloc| == |isAlloc'| && forall i | 0 <= i < n :: isAlloc[i] == isAlloc'[i]
    ensures Count(isAlloc, n) == Count(isAlloc', n)
    decreases n
  {
    if n > 0 {
      CountSame(isAlloc, isAlloc', n - 1);
    }
  }

  /** The memory map holds eight units per process, and those taken before. */
  ghost predicate Counted(isAlloc: seq<bool>, map8: seq<bv8>, top: MM.U16, units0: nat) {
    |isAlloc| == SLOTS && |map8| == MM.MAP_BYTES &&
    MM.Units(map8, top) == units0 + PROCESS_UNITS * Count(isAlloc, SLOTS - 1)
  }

  lemma CountedNext(isAlloc: seq<bool>, slot: nat, was: seq<bv8>, now: seq<bv8>, top: MM.U16, top': MM.U16, units0: nat)
    requires Counted(isAlloc, was, top, units0) && Extended(was, now, top, top')
    requires slot < SLOTS - 1 && !isAlloc[slot]
    ensures Counted(isAlloc[slot := true], now, top', units0)
  {
    hide MM.Units, Count;
    CountNext(isAlloc, slot, SLOTS - 1);
  }

  lemma {:induction false} CountAll(isAlloc: seq<bool>, n: nat)
    requires n <= |isAlloc| && forall i | 0 <= i < n :: isAlloc[i]
    ensures Count(isAlloc, n) == n
    decreases n
  {
    if n > 0 {
      CountAll(isAlloc, n - 1);
    }
  }

  /** The end of the memory that the processes of a table can ever get. */
  function Ceiling(base: MM.U64, units0: nat): nat {
    base + MM.UNIT * (units0 + PROCESS_UNITS * 24)
  }

  /** The memory of different processes never overlaps.  Only the state before the first process
      matters: the units taken then, and where the memory starts. */
  lemma RegionsDisjoint(isAlloc: seq<bool>, pcbs: seq<Pcb>, bs: seq<KernelHeap.Block>,
      base: MM.U64, map8: seq<bv8>, top: MM.U16, units0: nat, i: nat, j: nat)
    requires KernelHeap.WellFormed(bs) && AllOwned(isAlloc, pcbs, KernelHeap.Live(bs))
    requires AllPlaced(isAlloc, pcbs, base, map8, top) && Counted(isAlloc, map8, top, units0)
    requires units0 + PROCESS_UNITS * 24 < 0x1_0000 && Ceiling(base, units0) < 0x1_0000_0000_0000_0000
    requires i < j < SLOTS - 1 && isAlloc[i] && isAlloc[j]
    ensures RegionsApart(pcbs[i + 1], pcbs[j + 1])
    ensures base <= pcbs[i + 1].sp - PROCESS_BYTES && pcbs[i + 1].sp <= Ceiling(base, units0)
  {
    hide AllPlaced, AllOwned, MM.Units, MM.AddressOf, FirstUnit, KernelHeap.WellFormed, KernelHeap.Live, Count;
    AtMost24(isAlloc, pcbs, bs, SLOTS - 1);
    RegionOf(isAlloc, pcbs, base, map8, top, i);
    RegionOf(isAlloc, pcbs, base, map8, top, j);
    UnitsApart(isAlloc, pcbs, base, map8, top, i, j);
  }

  /** The 1 MiB below the two stack pointers do not overlap. */
  /** The MiB below a stack pointer is exactly the eight units of the process: it starts where the
      units below its entry end. */
  lemma RegionIsUnits(isAlloc: seq<bool>, pcbs: seq<Pcb>, bs: seq<KernelHeap.Block>,
      base: MM.U64, map8: seq<bv8>, top: MM.U16, units0: nat, i: nat)
    requires KernelHeap.WellFormed(bs) && AllOwned(isAlloc, pcbs, KernelHeap.Live(bs))
    requires AllPlaced(isAlloc, pcbs, base, map8, top) && Counted(isAlloc, map8, top, units0)
    requires units0 + PROCESS_UNITS * 24 < 0x1_0000 && Ceiling(base, units0) < 0x1_0000_0000_0000_0000
    requires i < SLOTS - 1 && isAlloc[i]
    ensures pcbs[i + 1].sp - 0x10_0000 == base + 0x2_0000 * MM.Units(map8, pcbs[i + 1].mmAddr)
    ensures pcbs[i + 1].sp == base + 0x2_0000 * (MM.Units(map8, pcbs[i + 1].mmAddr) + 8)
  {
    hide AllPlaced, AllOwned, MM.Units, MM.AddressOf, KernelHeap.WellFormed, KernelHeap.Live, Count;
    AtMost24(isAlloc, pcbs, bs, SLOTS - 1);
    RegionOf(isAlloc, pcbs, base, map8, top, i);
  }

  /** Loading an image into the process of slot `i` writes no byte of another process's memory. */
  method LoadInto(pm: ProcessManager, i: nat, p: ImageLoading.Process, image: seq<ImageLoading.U8>) returns (ok: bool)
    requires pm.Valid() && i < SLOTS - 1 && pm.isAlloc[i]
    requires pm.units0 + PROCESS_UNITS * 24 < 0x1_0000 && Ceiling(pm.mm.base, pm.units0) < 0x1_0000_0000_0000_0000
    requires p.Valid() && p.sp == pm.pcbs[i + 1].sp && ImageLoading.NoWrap(image, p.start)
    modifies p, p.memory
    ensures forall j, a |
      0 <= j < SLOTS - 1 && j != i && pm.isAlloc[j] && pm.pcbs[j + 1].sp - 0x10_0000 <= a < pm.pcbs[j + 1].sp &&
      0 <= a < p.memory.Length :: p.memory[a] == old(p.memory[a])
  {
    hide AllOwned, AllPlaced, Counted, KernelHeap.WellFormed, KernelHeap.Live, KernelHeap.Linked, MM.Units;
    hide ImageLoading.NoWrap, ImageLoading.Fits, ImageLoading.ValidHeader;
    AllRegionsApart(pm);
    ok := p.Load(image);
  }

  ghost predicate RegionsApart(p: Pcb, q: Pcb) {
    p.sp <= q.sp - PROCESS_BYTES || q.sp <= p.sp - PROCESS_BYTES
  }

  lemma UnitsApart(isAlloc: seq<bool>, pcbs: seq<Pcb>, base: MM.U64, map8: seq<bv8>, top: MM.U16, i: nat, j: nat)
    requires AllPlaced(isAlloc, pcbs, base, map8, top) && i < j < SLOTS - 1 && isAlloc[i] && isAlloc[j]
    ensures FirstUnit(map8, pcbs[i + 1]) + PROCESS_UNITS <= FirstUnit(map8, pcbs[j + 1]) ||
      FirstUnit(map8, pcbs[j + 1]) + PROCESS_UNITS <= FirstUnit(map8, pcbs[i + 1])
  {
    hide MM.Units, MM.AddressOf, FirstUnit;
  }

  lemma RegionOf(isAlloc: seq<bool>, pcbs: seq<Pcb>, base: MM.U64, map8: seq<bv8>, top: MM.U16, i: nat)
    requires AllPlaced(isAlloc, pcbs, base, map8, top) && MM.Units(map8, top) < 0x1_0000
    requires base + MM.UNIT * MM.Units(map8, top) < 0x1_0000_0000_0000_0000
    requires i < SLOTS - 1 && isAlloc[i]
    ensures pcbs[i + 1].sp == base + MM.UNIT * FirstUnit(map8, pcbs[i + 1]) + PROCESS_BYTES
    ensures pcbs[i + 1].sp <= base + MM.UNIT * MM.Units(map8, top)
  {
    hide MM.Units, MM.AddressOf, FirstUnit;
    StackPointer(base, FirstUnit(map8, pcbs[i + 1]), MM.Units(map8, top));
  }

  lemma StackPointer(base: MM.U64, first: nat, total: nat)
    requires first + PROCESS_UNITS <= total < 0x1_0000 && base + MM.UNIT * total < 0x1_0000_0000_0000_0000
    ensures StackTop(base, first) == base + MM.UNIT * first + PROCESS_BYTES
    ensures base + MM.UNIT * first + PROCESS_BYTES <= base + MM.UNIT * total
  {
    hide MM.AddressOf;
    MM.AddressExact(base, first, 0);
  }

  /** Slots in use hold their own id, and a page table of their own. */
  ghost predicate AllOwned(isAlloc: seq<bool>, pcbs: seq<Pcb>, live: map<nat, nat>) {
    |isAlloc| == |pcbs| == SLOTS &&
    (forall i | 0 <= i < SLOTS - 1 && isAlloc[i] ::
      pcbs[i + 1].id == i + 1 && pcbs[i + 1].page in live && live[pcbs[i + 1].page] >= PAGE_TABLE) &&
    forall i, j | 0 <= i < j < SLOTS - 1 && isAlloc[i] && isAlloc[j] :: pcbs[i + 1].page != pcbs[j + 1].page
  }

  /** The first unit of a control block's memory. */
  ghost function FirstUnit(map8: seq<bv8>, pcb: Pcb): nat
    requires |map8| == MM.MAP_BYTES
  {
    MM.Units(map8, pcb.mmAddr)
  }

  /** Slots in use own eight units of the memory map, nobody else's, and their stack pointer is
      at the end of them. */
  ghost predicate AllPlaced(isAlloc: seq<bool>, pcbs: seq<Pcb>, base: MM.U64, map8: seq<bv8>, top: MM.U16) {
    |isAlloc| == |pcbs| == SLOTS && |map8| == MM.MAP_BYTES &&
    (forall i | 0 <= i < SLOTS - 1 && isAlloc[i] ::
      pcbs[i + 1].mmAddr <= top && FirstUnit(map8, pcbs[i + 1]) + PROCESS_UNITS <= MM.Units(map8, top) &&
      pcbs[i + 1].sp == StackTop(base, FirstUnit(map8, pcbs[i + 1]))) &&
    forall i, j | 0 <= i < j < SLOTS - 1 && isAlloc[i] && isAlloc[j] ::
      Apart(FirstUnit(map8, pcbs[i + 1]), FirstUnit(map8, pcbs[j + 1]))
  }

  ghost predicate Apart(a: nat, b: nat) {
    a + PROCESS_UNITS <= b || b + PROCESS_UNITS <= a
  }

  /** There is room for one more process after `i` others. */
  ghost predicate Grants(room: nat, top: MM.U16, i: nat) {
    i < room && top + 3 * (i + 1) <= 0xFFFF
  }

  /** A run of `pm_create` serves calls as long as there is room in heap and map, and no later ones.
      The ids are distinct and stay with their processes, at most 24 processes exist, and their
      memory is disjoint.  In an empty table the ids are 1, 2, 3 and so on. */
  method Run(pm: ProcessManager, entries: seq<MM.U64>, parent: U8) returns (ids: seq<nat>)
    requires pm.Valid()
    modifies pm.heap, pm.mm`spTop, pm.mm.map8, pm.isAlloc, pm.pcbs
    ensures pm.Valid() && |ids| == |entries|
    ensures forall i | 0 <= i < |ids| :: ids[i] != 0 <==> Grants(Room(old(pm.heap.blocks)), old(pm.mm.spTop), i)
    ensures forall i, j | 0 <= i < j < |ids| && ids[i] != 0 :: ids[i] != ids[j]
    ensures forall i | 0 <= i < |ids| && ids[i] != 0 ::
      ids[i] < 256 && pm.isAlloc[ids[i] - 1] && pm.pcbs[ids[i]].id == ids[i] && pm.pcbs[ids[i]].entry == entries[i]
    ensures NoneUsed(old(pm.isAlloc[..])) ==> forall i | 0 <= i < |ids| && ids[i] != 0 :: ids[i] == i + 1
    ensures Count(pm.isAlloc[..], SLOTS - 1) <= 24
    ensures pm.units0 + PROCESS_UNITS * 24 < 0x1_0000 && Ceiling(pm.mm.base, pm.units0) < 0x1_0000_0000_0000_0000 ==>
      AllApart(pm.isAlloc[..], pm.pcbs[..])
  {
    hide AllOwned, AllPlaced, Counted, KernelHeap.WellFormed, KernelHeap.Linked, KernelHeap.Live, KernelHeap.Gained;
    hide MM.Units, Extended, AllApart, KernelHeap.Room;
    ids := [];
    var n := 0;
    ghost var used, room, top := pm.isAlloc[..], Room(pm.heap.blocks), pm.mm.spTop;
    ghost var s := 0;
    while n < |entries|
      invariant 0 <= n <= |entries| && |ids| == n && pm.Valid()
      invariant 0 <= s <= n && Room(pm.heap.blocks) == room - s && pm.mm.spTop == top + PROCESS_ENTRIES * s
      invariant s < n ==> !Grants(room, top, s)
      invariant forall i | 0 <= i < n :: ids[i] != 0 <==> i < s
      invariant forall i | 0 <= i < s :: Grants(room, top, i)
      invariant NoneUsed(used) ==> FirstUsed(pm.isAlloc[..], s) && forall i | 0 <= i < s :: ids[i] == i + 1
      invariant forall i, j | 0 <= i < j < |ids| && ids[i] != 0 :: ids[i] != ids[j]
      invariant forall i | 0 <= i < |ids| && ids[i] != 0 :: Holds(pm.isAlloc[..], pm.pcbs[..], ids[i], entries[i])
    {
      ghost var was := pm.isAlloc[..];
      var id := pm.Create(entries[n], parent);
      assert id != 0 <==> s == n && Grants(room, top, s);
      if id != 0 && NoneUsed(used) {
        NextUsed(was, s, id);
      }
      ids := ids + [id];
      n := n + 1;
      s := if id == 0 then s else s + 1;
    }
    AtMost24(pm.isAlloc[..], pm.pcbs[..], pm.heap.blocks, SLOTS - 1);
    AllRegionsApart(pm);
  }

  ghost predicate NoneUsed(isAlloc: seq<bool>) {
    FirstUsed(isAlloc, 0)
  }

  /** Exactly the first `n` slots are in use. */
  ghost predicate FirstUsed(isAlloc: seq<bool>, n: nat) {
    forall j | 0 <= j < |isAlloc| :: isAlloc[j] <==> j < n
  }

  lemma NextUsed(isAlloc: seq<bool>, n: nat, id: nat)
    requires FirstUsed(isAlloc, n) && 0 < id <= |isAlloc|
    requires forall j | 0 <= j < id :: isAlloc[j] == (j != id - 1)
    ensures id == n + 1 && FirstUsed(isAlloc[id - 1 := true], n + 1)
  {
    assert !isAlloc[id - 1];
    assert !isAlloc[n];
  }

  /** `id` is the id of a process that runs from `entry`. */
  ghost predicate Holds(isAlloc: seq<bool>, pcbs: seq<Pcb>, id: nat, entry: MM.U64) {
    |isAlloc| == |pcbs| == SLOTS && 0 < id < SLOTS && isAlloc[id - 1] && pcbs[id].id == id && pcbs[id].entry == entry
  }

  ghost predicate AllApart(isAlloc: seq<bool>, pcbs: seq<Pcb>) {
    |isAlloc| == |pcbs| == SLOTS &&
    forall i, j | 0 <= i < j < SLOTS - 1 && isAlloc[i] && isAlloc[j] :: RegionsApart(pcbs[i + 1], pcbs[j + 1])
  }

  lemma AllRegionsApart(pm: ProcessManager)
    requires pm.Valid()
    ensures pm.units0 + PROCESS_UNITS * 24 < 0x1_0000 && Ceiling(pm.mm.base, pm.units0) < 0x1_0000_0000_0000_0000 ==>
      AllApart(pm.isAlloc[..], pm.pcbs[..])
  {
    hide AllOwned, AllPlaced, Counted, KernelHeap.WellFormed, KernelHeap.Live, MM.Units, RegionsApart;
    if pm.units0 + PROCESS_UNITS * 24 < 0x1_0000 && Ceiling(pm.mm.base, pm.units0) < 0x1_0000_0000_0000_0000 {
      var isAlloc, pcbs := pm.isAlloc[..], pm.pcbs[..];
      forall i, j | 0 <= i < j < SLOTS - 1 && isAlloc[i] && isAlloc[j]
        ensures RegionsApart(pcbs[i + 1], pcbs[j + 1])
      {
        RegionsDisjoint(isAlloc, pcbs, pm.heap.blocks, pm.mm.base, pm.mm.map8[..], pm.mm.spTop, pm.units0, i, j);
      }
    }
  }
}
