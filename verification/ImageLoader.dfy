/** Loading an ELF image into a process, and the heap above it (`elf_load_image`, `brk_call`). */
module ImageLoading {
  import opened Arithmetic

  type U8 = x: int | 0 <= x < 256

  const TOP := 0x1_0000_0000_0000_0000
  /** INITIAL_PROC_SIZE in bytes. */
  const PROCESS_SIZE := 1024 * 1024
  const STACK_RESERVE := 16 * 1024
  /** sizeof(elf_ehdr_t) and sizeof(elf_phdr_t). */
  const EHDR := 64
  const PHDR := 56
  const PT_LOAD := 1
  const MACHINE_AARCH64 := 183

  // ----- the fields of an image -----

  /** The little-endian number in `n` bytes at `at`. */
  function Field(image: seq<U8>, at: nat, n: nat): nat
    requires at + n <= |image|
    decreases n
  {
    if n == 0 then 0 else image[at] as nat + 256 * Field(image, at + 1, n - 1)
  }

  /** The header fields the loader reads. */
  datatype Header = Header(entry: nat, phoff: nat, phnum: nat)

  function HeaderOf(image: seq<U8>): Header
    requires |image| >= EHDR
  {
    Header(Field(image, 24, 8), Field(image, 32, 8), Field(image, 56, 2))
  }

  /** `elf_valid_header`; its sum is taken in 64 bits. */
  predicate ValidHeader(image: seq<U8>)
    ensures ValidHeader(image) ==> |image| >= EHDR
  {
    |image| >= EHDR &&
    image[0] == 0x7F && image[1] == 'E' as int && image[2] == 'L' as int && image[3] == 'F' as int &&
    image[4] == 2 && image[5] == 1 &&
    Field(image, 18, 2) == MACHINE_AARCH64 &&
    Field(image, 54, 2) == PHDR &&
    Sum64(HeaderOf(image).phoff, HeaderOf(image).phnum * PHDR) <= |image|
  }

  /** A valid header whose table of segments lies inside the image. */
  predicate Readable(image: seq<U8>)
    ensures Readable(image) ==> ValidHeader(image)
  {
    ValidHeader(image) && HeaderOf(image).phoff + HeaderOf(image).phnum * PHDR <= |image|
  }

  /** `a + b` in 64 bits. */
  function Sum64(a: nat, b: nat): nat { (a + b) % TOP }

  datatype Segment = Segment(kind: nat, offset: nat, vaddr: nat, filesz: nat, memsz: nat, align: nat)

  function SegmentAt(image: seq<U8>, i: nat): Segment
    requires Readable(image) && i < HeaderOf(image).phnum
  {
    var at := HeaderOf(image).phoff + i * PHDR;
    TableFits(HeaderOf(image).phnum, i);
    Segment(Field(image, at, 4), Field(image, at + 8, 8), Field(image, at + 16, 8),
      Field(image, at + 32, 8), Field(image, at + 40, 8), Field(image, at + 48, 8))
  }

  lemma TableFits(phnum: nat, i: nat)
    requires i < phnum
    ensures i * PHDR + PHDR <= phnum * PHDR
  {
  }

  /** The segments to load among the first `n` of the table. */
  ghost function Loads(image: seq<U8>, n: nat): seq<Segment>
    requires Readable(image) && n <= HeaderOf(image).phnum
  {
    if n == 0 then []
    else
      var seg := SegmentAt(image, n - 1);
      Loads(image, n - 1) + if seg.kind == PT_LOAD then [seg] else []
  }

  // ----- the layout -----

  ghost function MinVaddr(segs: seq<Segment>): nat {
    if segs == [] then TOP - 1
    else
      var rest, last := MinVaddr(segs[..|segs| - 1]), segs[|segs| - 1];
      if last.vaddr < rest then last.vaddr else rest
  }

  ghost function MaxVaddr(segs: seq<Segment>): nat {
    if segs == [] then 0
    else
      var rest, last := MaxVaddr(segs[..|segs| - 1]), segs[|segs| - 1];
      if last.vaddr + last.memsz > rest then last.vaddr + last.memsz else rest
  }

  ghost function MaxAlign(segs: seq<Segment>): (align: nat)
    ensures align > 0
  {
    if segs == [] then 1
    else
      var rest, last := MaxAlign(segs[..|segs| - 1]), segs[|segs| - 1];
      if last.align > rest then last.align else rest
  }

  /** Bitwise conjunction. */
  function And(x: nat, y: nat): nat {
    if x == 0 || y == 0 then 0 else 2 * And(x / 2, y / 2) + if x % 2 == 1 && y % 2 == 1 then 1 else 0
  }

  /** `(x + (align - 1)) & ~(align - 1)`. */
  function AlignedUp(x: nat, align: nat): nat
    requires align > 0
  {
    AndBound(x + align - 1, align - 1);
    x + align - 1 - And(x + align - 1, align - 1)
  }

  lemma {:induction false} AndBound(x: nat, y: nat)
    ensures And(x, y) <= x && And(x, y) <= y
  {
    if x != 0 && y != 0 {
      AndBound(x / 2, y / 2);
    }
  }

  ghost function TwoTo(k: nat): (p: nat)
    ensures p > 0
  {
    if k == 0 then 1 else 2 * TwoTo(k - 1)
  }

  lemma {:induction false} AndMask(x: nat, k: nat)
    ensures And(x, TwoTo(k) - 1) == x % TwoTo(k)
    decreases k
  {
    if x == 0 {
      ModUnique(0, 0, 0, TwoTo(k));
    } else if k > 0 {
      AndMask(x / 2, k - 1);
      AndStep(x, TwoTo(k - 1));
      ModDouble(x, TwoTo(k - 1));
    } else {
      ModUnique(x, x, 0, 1);
    }
  }

  /** Bit `i` of a number. */
  ghost function Bit(x: nat, i: nat): nat {
    if i == 0 then x % 2 else Bit(x / 2, i - 1)
  }

  /** The conjunction has exactly the bits that both numbers have. */
  lemma {:induction false} AndBits(x: nat, y: nat, i: nat)
    ensures Bit(And(x, y), i) == if Bit(x, i) == 1 && Bit(y, i) == 1 then 1 else 0
    decreases i
  {
    if x == 0 || y == 0 {
      NoBits(i);
    } else {
      AndHalves(x, y);
      if i > 0 {
        AndBits(x / 2, y / 2, i - 1);
      }
    }
  }

  lemma {:induction false} NoBits(i: nat)
    ensures Bit(0, i) == 0
  {
    if i > 0 {
      NoBits(i - 1);
    }
  }

  /** Rounding up clears the bits of the mask. */
  lemma AlignedUpBits(x: nat, align: nat, i: nat)
    requires align > 0
    ensures Bit(AlignedUp(x, align), i) == if Bit(x + align - 1, i) == 1 && Bit(align - 1, i) == 0 then 1 else 0
  {
    AndBound(x + align - 1, align - 1);
    ClearedBits(x + align - 1, align - 1, i);
  }

  lemma {:induction false} ClearedBits(y: nat, m: nat, i: nat)
    ensures And(y, m) <= y
    ensures Bit(y - And(y, m), i) == if Bit(y, i) == 1 && Bit(m, i) == 0 then 1 else 0
    decreases i
  {
    AndBound(y, m);
    if y == 0 || m == 0 {
      NoBits(i);
      BitIsBit(y, i);
    } else {
      ClearedHalves(y, m);
      if i > 0 {
        ClearedBits(y / 2, m / 2, i - 1);
      }
    }
  }

  lemma {:induction false} BitIsBit(x: nat, i: nat)
    ensures Bit(x, i) == 0 || Bit(x, i) == 1
  {
    if i > 0 {
      BitIsBit(x / 2, i - 1);
    }
  }

  lemma ClearedHalves(y: nat, m: nat)
    requires y > 0 && m > 0
    ensures And(y, m) <= y && And(y / 2, m / 2) <= y / 2
    ensures (y - And(y, m)) / 2 == y / 2 - And(y / 2, m / 2)
    ensures (y - And(y, m)) % 2 == if y % 2 == 1 && m % 2 == 0 then 1 else 0
  {
    AndBound(y, m);
    AndBound(y / 2, m / 2);
  }

  lemma AndHalves(x: nat, y: nat)
    requires x > 0 && y > 0
    ensures And(x, y) / 2 == And(x / 2, y / 2)
    ensures And(x, y) % 2 == if x % 2 == 1 && y % 2 == 1 then 1 else 0
  {
  }

  lemma AndStep(x: nat, p: nat)
    requires p > 0
    ensures And(x, 2 * p - 1) == 2 * And(x / 2, p - 1) + x % 2
  {
    assert (2 * p - 1) / 2 == p - 1 && (2 * p - 1) % 2 == 1;
  }

  lemma ModDouble(x: nat, p: nat)
    requires p > 0
    ensures x % (2 * p) == 2 * ((x / 2) % p) + x % 2
  {
    var q, r := (x / 2) / p, (x / 2) % p;
    assert x / 2 == q * p + r;
    assert x == q * (2 * p) + (2 * r + x % 2);
    ModUnique(x, q, 2 * r + x % 2, 2 * p);
  }

  /** For powers of two this is the least multiple that is not below. */
  lemma AlignedUpIsLeast(x: nat, k: nat)
    ensures AlignedUp(x, TwoTo(k)) % TwoTo(k) == 0
    ensures x <= AlignedUp(x, TwoTo(k)) < x + TwoTo(k)
  {
    hide TwoTo, And;
    AndMask(x + TwoTo(k) - 1, k);
    RoundDown(x + TwoTo(k) - 1, TwoTo(k));
  }

  lemma RoundDown(y: nat, p: nat)
    requires p > 0
    ensures (y - y % p) % p == 0 && 0 <= y % p < p
  {
    assert y == (y / p) * p + y % p;
    ModUnique(y - y % p, y / p, 0, p);
  }

  ghost function LoadBase(start: nat, segs: seq<Segment>): nat {
    if MaxAlign(segs) > 1 then AlignedUp(start, MaxAlign(segs)) else start
  }

  ghost function ImageEnd(start: nat, segs: seq<Segment>): int {
    LoadBase(start, segs) + (MaxVaddr(segs) - MinVaddr(segs))
  }

  ghost function HeapStart(start: nat, segs: seq<Segment>): int {
    (ImageEnd(start, segs) + 15) / 16 * 16
  }

  function HeapLimit(start: nat): nat { start + PROCESS_SIZE - STACK_RESERVE }

  ghost predicate FilesFit(image: seq<U8>, segs: seq<Segment>) {
    forall seg | seg in segs :: seg.filesz <= seg.memsz && seg.offset + seg.filesz <= |image|
  }

  /** What the first pass and the heap check demand. */
  ghost predicate Fits(image: seq<U8>, start: nat, segs: seq<Segment>) {
    FilesFit(image, segs) &&
    MinVaddr(segs) != TOP - 1 && MaxVaddr(segs) - MinVaddr(segs) <= PROCESS_SIZE &&
    HeapStart(start, segs) <= HeapLimit(start)
  }

  /** The 64-bit sums of the header fields do not wrap. */
  ghost predicate NoWrap(image: seq<U8>, start: nat)
    ensures NoWrap(image, start) && ValidHeader(image) ==> Readable(image)
  {
    start + 2 * PROCESS_SIZE < TOP &&
    (|image| >= EHDR ==> HeaderOf(image).phoff + HeaderOf(image).phnum * PHDR < TOP) &&
    (Readable(image) ==> forall i | 0 <= i < HeaderOf(image).phnum :: SegmentFits64(SegmentAt(image, i), start))
  }

  ghost predicate SegmentFits64(seg: Segment, start: nat) {
    seg.kind == PT_LOAD ==>
      seg.offset + seg.filesz < TOP && seg.vaddr + seg.memsz < TOP && start + seg.align + 2 * PROCESS_SIZE < TOP
  }

  // ----- the memory of a loaded image -----

  ghost function SegmentBase(base: nat, min: nat, seg: Segment): int {
    base + seg.vaddr - min
  }

  /** The segment lies between `base` and `limit`, and its file part in the image. */
  ghost predicate Sound(image: seq<U8>, seg: Segment, base: nat, min: nat, limit: int) {
    seg.filesz <= seg.memsz && seg.offset + seg.filesz <= |image| &&
    min <= seg.vaddr && SegmentBase(base, min, seg) + seg.memsz <= limit
  }

  /** Byte `j` of a segment: from the file, then zero. */
  ghost function SegmentByte(image: seq<U8>, seg: Segment, j: nat): U8
    requires j < seg.memsz && seg.offset + seg.filesz <= |image|
  {
    if j < seg.filesz then image[seg.offset + j] else 0
  }

  /** Memory after one segment was put at `at`. */
  ghost function With(memory: seq<U8>, image: seq<U8>, seg: Segment, at: nat): (memory': seq<U8>)
    requires seg.filesz <= seg.memsz && seg.offset + seg.filesz <= |image| && at + seg.memsz <= |memory|
    ensures |memory'| == |memory|
  {
    seq(|memory|, a requires 0 <= a < |memory| => WithByte(memory, image, seg, at, a))
  }

  ghost function WithByte(memory: seq<U8>, image: seq<U8>, seg: Segment, at: nat, a: nat): U8
    requires seg.filesz <= seg.memsz && seg.offset + seg.filesz <= |image| && at + seg.memsz <= |memory| && a < |memory|
  {
    if at <= a < at + seg.memsz then SegmentByte(image, seg, a - at) else memory[a]
  }

  ghost predicate AllSound(image: seq<U8>, segs: seq<Segment>, base: nat, min: nat, limit: int) {
    forall i | 0 <= i < |segs| :: Sound(image, segs[i], base, min, limit)
  }

  /** Memory after all segments were put in place, in order. */
  ghost function Placed(memory: seq<U8>, image: seq<U8>, segs: seq<Segment>, base: nat, min: nat): (memory': seq<U8>)
    requires AllSound(image, segs, base, min, |memory|)
    ensures |memory'| == |memory|
  {
    if segs == [] then memory
    else
      var last := segs[|segs| - 1];
      With(Placed(memory, image, segs[..|segs| - 1], base, min), image, last, SegmentBase(base, min, last))
  }

  ghost predicate Covers(seg: Segment, base: nat, min: nat, a: nat) {
    SegmentBase(base, min, seg) <= a < SegmentBase(base, min, seg) + seg.memsz
  }

  /** The last segment that covers an address decides its byte; other memory is not touched. */
  lemma {:induction false} PlacedAt(memory: seq<U8>, image: seq<U8>, segs: seq<Segment>, base: nat, min: nat,
      a: nat, k: nat)
    requires AllSound(image, segs, base, min, |memory|)
    requires a < |memory| && k <= |segs|
    requires forall i | k <= i < |segs| :: !Covers(segs[i], base, min, a)
    requires k > 0 ==> Covers(segs[k - 1], base, min, a)
    ensures k == 0 ==> Placed(memory, image, segs, base, min)[a] == memory[a]
    ensures k > 0 ==>
      var seg := segs[k - 1];
      var o := a - (base + seg.vaddr - min);
      0 <= o < seg.memsz && Placed(memory, image, segs, base, min)[a] ==
        if o < seg.filesz then image[seg.offset + o] else 0
    decreases |segs|
  {
    if k < |segs| {
      PlacedAt(memory, image, segs[..|segs| - 1], base, min, a, k);
    }
  }

  /** Nothing outside the segments' range is touched. */
  lemma PlacedInside(memory: seq<U8>, image: seq<U8>, segs: seq<Segment>, start: nat, base: nat, min: nat, limit: nat)
    requires AllSound(image, segs, base, min, |memory|) && AllSound(image, segs, base, min, limit) && start <= base
    ensures forall a | 0 <= a < |memory| && !(start <= a < limit) ::
      Placed(memory, image, segs, base, min)[a] == memory[a]
  {
    forall a | 0 <= a < |memory| && !(start <= a < limit)
      ensures Placed(memory, image, segs, base, min)[a] == memory[a]
    {
      PlacedAt(memory, image, segs, base, min, a, 0);
    }
  }

  // ----- the layout is sound -----

  lemma {:induction false} Extremes(segs: seq<Segment>, seg: Segment)
    requires seg in segs
    ensures MinVaddr(segs) <= seg.vaddr && seg.vaddr + seg.memsz <= MaxVaddr(segs)
    decreases |segs|
  {
    var init, last := segs[..|segs| - 1], segs[|segs| - 1];
    assert segs == init + [last];
    if seg != last {
      Extremes(init, seg);
    }
  }

  /** Image, heap and stack reserve do not meet, and the check of the copy pass never fires. */
  lemma LayoutApart(image: seq<U8>, start: nat, segs: seq<Segment>)
    requires Fits(image, start, segs)
    ensures start <= LoadBase(start, segs) <= ImageEnd(start, segs)
    ensures AllSound(image, segs, LoadBase(start, segs), MinVaddr(segs), ImageEnd(start, segs))
    ensures forall seg | seg in segs ::
      LoadBase(start, segs) - start + (seg.vaddr - MinVaddr(segs)) + seg.memsz <= PROCESS_SIZE - STACK_RESERVE
    ensures ImageEnd(start, segs) <= HeapStart(start, segs) <= HeapLimit(start) && HeapStart(start, segs) % 16 == 0
    ensures HeapStart(start, segs) < ImageEnd(start, segs) + 16
  {
    if MaxAlign(segs) > 1 {
      AndBound(start + MaxAlign(segs) - 1, MaxAlign(segs) - 1);
    }
    assert segs != [] && segs[0] in segs;
    Extremes(segs, segs[0]);
    hide MinVaddr, MaxVaddr, LoadBase;
    forall seg | seg in segs
      ensures Sound(image, seg, LoadBase(start, segs), MinVaddr(segs), ImageEnd(start, segs))
      ensures LoadBase(start, segs) - start + (seg.vaddr - MinVaddr(segs)) + seg.memsz <= PROCESS_SIZE - STACK_RESERVE
    {
      Extremes(segs, seg);
    }
  }

  // ----- the heap of a process -----

  datatype Heap = Heap(start: nat, brk: nat, limit: nat)

  /** `brk_call` grants `size` more bytes. */
  predicate Grants(h: Heap, size: nat) {
    h.start != 0 && size > 0 && h.brk <= h.limit && size <= h.limit - h.brk
  }

  function AfterBrk(h: Heap, size: nat): Heap {
    if Grants(h, size) then h.(brk := h.brk + size) else h
  }

  ghost function AfterAll(h: Heap, sizes: seq<nat>): Heap {
    if sizes == [] then h else AfterBrk(AfterAll(h, sizes[..|sizes| - 1]), sizes[|sizes| - 1])
  }

  /** Over any series of calls the break stays between the start and the limit, every grant lies
      there too, and two grants never share a byte. */
  lemma {:induction false} GrantsApart(h: Heap, sizes: seq<nat>, i: nat, j: nat)
    requires h.start <= h.brk <= h.limit && i < j <= |sizes|
    ensures var before, after := AfterAll(h, sizes[..i]), AfterAll(h, sizes[..j]);
      h.start <= h.brk <= before.brk <= after.brk <= h.limit &&
      after.start == h.start && after.limit == h.limit &&
      (Grants(before, sizes[i]) ==> before.brk + sizes[i] <= after.brk)
    decreases j
  {
    BreakMoves(h, sizes[..i]);
    assert sizes[..j][..j - 1] == sizes[..j - 1];
    BreakMoves(h, sizes[..j - 1]);
    if i < j - 1 {
      GrantsApart(h, sizes, i, j - 1);
    }
  }

  lemma {:induction false} BreakMoves(h: Heap, sizes: seq<nat>)
    requires h.brk <= h.limit
    ensures h.brk <= AfterAll(h, sizes).brk <= h.limit
    ensures AfterAll(h, sizes).start == h.start && AfterAll(h, sizes).limit == h.limit
    decreases |sizes|
  {
    if sizes != [] {
      BreakMoves(h, sizes[..|sizes| - 1]);
    }
  }

  function Sum(sizes: seq<nat>): nat {
    if sizes == [] then 0 else Sum(sizes[..|sizes| - 1]) + sizes[|sizes| - 1]
  }

  /** Call `i` of a series is granted. */
  ghost predicate GrantedAt(h: Heap, sizes: seq<nat>, i: nat)
    requires i < |sizes|
  {
    Grants(AfterAll(h, sizes[..i]), sizes[i])
  }

  /** All calls of a series are granted exactly if together they fit. */
  lemma {:induction false} AllGranted(h: Heap, sizes: seq<nat>)
    requires h.start != 0 && h.brk <= h.limit && forall i | 0 <= i < |sizes| :: sizes[i] > 0
    ensures (forall i | 0 <= i < |sizes| :: GrantedAt(h, sizes, i)) <==> Sum(sizes) <= h.limit - h.brk
    ensures Sum(sizes) <= h.limit - h.brk ==> AfterAll(h, sizes).brk == h.brk + Sum(sizes)
    decreases |sizes|
  {
    if sizes != [] {
      var n := |sizes| - 1;
      var init := sizes[..n];
      AllGranted(h, init);
      BreakMoves(h, init);
      GrantsWhen(AfterAll(h, init), sizes[n]);
      assert GrantedAt(h, sizes, n) <==> Grants(AfterAll(h, init), sizes[n]);
      forall i | 0 <= i < n
        ensures GrantedAt(h, init, i) <==> GrantedAt(h, sizes, i)
      {
        assert init[..i] == sizes[..i];
      }
      hide Grants, GrantedAt;
    }
  }

  lemma GrantsWhen(h: Heap, size: nat)
    ensures Grants(h, size) <==> h.start != 0 && 0 < size && h.brk + size <= h.limit
  {
  }

  // ----- a process in memory -----

  class Process {
    /** The machine's memory; the process owns PROCESS_SIZE bytes from `start`. */
    const memory: array<U8>
    const start: nat
    const sp: nat
    var entry: nat
    var heapStart: nat
    var heapBreak: nat
    var heapLimit: nat

    ghost predicate Valid() {
      sp == start + PROCESS_SIZE <= memory.Length < TOP
    }

    /** `pm_create` for the fields used here. */
    constructor (memory: array<U8>, start: nat)
      requires start + PROCESS_SIZE <= memory.Length < TOP
      ensures Valid() && this.memory == memory && this.start == start && heapStart == 0
    {
      this.memory, this.start, sp := memory, start, start + PROCESS_SIZE;
      entry, heapStart, heapBreak, heapLimit := 0, 0, 0, 0;
    }

    /** `elf_load_image`. Memory is written exactly when the header, the segments and the layout
        are accepted; the entry point is checked after that. */
    method Load(image: seq<U8>) returns (ok: bool)
      requires Valid() && NoWrap(image, start)
      modifies this, memory
      ensures !ValidHeader(image) || !Fits(image, start, Loads(image, HeaderOf(image).phnum)) ==>
        !ok && memory[..] == old(memory[..])
      ensures ValidHeader(image) && Fits(image, start, Loads(image, HeaderOf(image).phnum)) ==>
        IsLoaded(image, start, old(memory[..]), memory[..])
      ensures forall a | 0 <= a < memory.Length && !(start <= a < start + PROCESS_SIZE - STACK_RESERVE) ::
        memory[a] == old(memory[a])
      ensures ValidHeader(image) && Fits(image, start, Loads(image, HeaderOf(image).phnum)) ==>
        (ok <==> HeaderOf(image).entry >= MinVaddr(Loads(image, HeaderOf(image).phnum)))
      ensures !ok ==>
        entry == old(entry) && heapStart == old(heapStart) && heapBreak == old(heapBreak) && heapLimit == old(heapLimit)
      ensures ok ==> var segs := Loads(image, HeaderOf(image).phnum);
        entry == LoadBase(start, segs) + HeaderOf(image).entry - MinVaddr(segs) &&
        heapStart == heapBreak == HeapStart(start, segs) && heapLimit == sp - STACK_RESERVE
    {
      hide Fits, Loads, HeaderOf, ValidHeader, MinVaddr, MaxVaddr, MaxAlign, AlignedUp, AllSound, Placed;
      if !ValidHeader(image) {
        return false;
      }
      var h := HeaderOf(image);
      var min, max, align;
      ok, min, max, align := Measure(image);
      ghost var segs := Loads(image, h.phnum);
      FitsMeans(image, start, segs);
      if !ok || min == TOP - 1 || max - min > PROCESS_SIZE {
        return false;
      }
      var base := if align > 1 then AlignedUp(start, align) else start;
      var limit := start + PROCESS_SIZE - STACK_RESERVE;
      LayoutFits64(image, start, segs);
      var imageEnd := Sum64(base, max - min);
      var heap := Sum64(imageEnd, 15) / 16 * 16;
      if heap > limit {
        return false;
      }
      LayoutApart(image, start, segs);
      SoundWithin(image, segs, base, min, imageEnd, memory.Length);
      CopyAll(image, base, min);
      PlacedInside(old(memory[..]), image, segs, start, base, min, imageEnd);
      assert forall a | 0 <= a < memory.Length :: memory[a] == memory[..][a] && old(memory[a]) == old(memory[..])[a];
      if h.entry < min {
        return false;
      }
      entry := base + (h.entry - min);
      heapStart, heapBreak, heapLimit := heap, heap, limit;
      return true;
    }

    /** The first pass: checks the segments and measures them. */
    method Measure(image: seq<U8>) returns (ok: bool, min: nat, max: nat, align: nat)
      requires Readable(image) && NoWrap(image, start)
      ensures ok ==> start + align + 2 * PROCESS_SIZE <= TOP
      ensures var segs := Loads(image, HeaderOf(image).phnum);
        (ok <==> FilesFit(image, segs)) &&
        (ok ==> min == MinVaddr(segs) && max == MaxVaddr(segs) && align == MaxAlign(segs))
    {
      hide Readable, HeaderOf, SegmentAt, Loads, MinVaddr, MaxVaddr, MaxAlign, FilesFit;
      var h := HeaderOf(image);
      min, max, align := TOP - 1, 0, 1;
      var i := 0;
      NoLoads(image);
      while i < h.phnum
        invariant 0 <= i <= h.phnum && FilesFit(image, Loads(image, i)) && start + align + 2 * PROCESS_SIZE <= TOP
        invariant min == MinVaddr(Loads(image, i)) && max == MaxVaddr(Loads(image, i))
        invariant align == MaxAlign(Loads(image, i))
      {
        var seg := SegmentAt(image, i);
        LoadsNext(image, i);
        assert SegmentFits64(seg, start);
        if seg.kind == PT_LOAD {
          MeasuresNext(image, Loads(image, i), seg);
          if seg.filesz > seg.memsz || Sum64(seg.offset, seg.filesz) > |image| {
            LoadsGrow(image, i + 1, h.phnum);
            FewerFit(image, Loads(image, i + 1), Loads(image, h.phnum));
            return false, 0, 0, 1;
          }
          if seg.vaddr < min {
            min := seg.vaddr;
          }
          if Sum64(seg.vaddr, seg.memsz) > max {
            max := Sum64(seg.vaddr, seg.memsz);
          }
          if seg.align > align {
            align := seg.align;
          }
        }
        i := i + 1;
      }
      ok := true;
    }

    /** The copy pass. Its own check never fires: see `LayoutApart`. */
    method CopyAll(image: seq<U8>, base: nat, min: nat)
      requires Readable(image) && AllSound(image, Loads(image, HeaderOf(image).phnum), base, min, memory.Length)
      modifies memory
      ensures memory[..] == Placed(old(memory[..]), image, Loads(image, HeaderOf(image).phnum), base, min)
    {
      hide Readable, HeaderOf, SegmentAt, Loads, Placed, Sound, With;
      var h := HeaderOf(image);
      var i := 0;
      NoLoads(image);
      NothingPlaced(memory[..], image, base, min);
      while i < h.phnum
        invariant 0 <= i <= h.phnum && AllSound(image, Loads(image, i), base, min, memory.Length)
        invariant memory[..] == Placed(old(memory[..]), image, Loads(image, i), base, min)
      {
        var seg := SegmentAt(image, i);
        LoadsGrow(image, i + 1, h.phnum);
        LoadsNext(image, i);
        if seg.kind == PT_LOAD {
          assert Loads(image, h.phnum)[|Loads(image, i)|] == seg;
          SoundMeans(image, seg, base, min, memory.Length);
          PlacedNext(old(memory[..]), image, Loads(image, i), seg, base, min);
          CopySegment(image, seg, base + (seg.vaddr - min));
        }
        i := i + 1;
      }
    }

    /** `memcpy` of the file part, and the loop of zeros after it. */
    method CopySegment(image: seq<U8>, seg: Segment, at: nat)
      requires seg.filesz <= seg.memsz && seg.offset + seg.filesz <= |image| && at + seg.memsz <= memory.Length
      modifies memory
      ensures forall a | at <= a < at + seg.filesz :: memory[a] == image[seg.offset + (a - at)]
      ensures forall a | at + seg.filesz <= a < at + seg.memsz :: memory[a] == 0
      ensures forall a | 0 <= a < memory.Length && !(at <= a < at + seg.memsz) :: memory[a] == old(memory[a])
      ensures memory[..] == With(old(memory[..]), image, seg, at)
    {
      var j := 0;
      while j < seg.filesz
        invariant 0 <= j <= seg.filesz
        invariant forall a | 0 <= a < memory.Length ::
          memory[a] == if at <= a < at + j then image[seg.offset + (a - at)] else old(memory[a])
      {
        memory[at + j] := image[seg.offset + j];
        j := j + 1;
      }
      while j < seg.memsz
        invariant seg.filesz <= j <= seg.memsz
        invariant forall a | 0 <= a < memory.Length ::
          memory[a] == if at <= a < at + j then SegmentByte(image, seg, a - at) else old(memory[a])
      {
        memory[at + j] := 0;
        j := j + 1;
      }
    }

    /** `brk_call`: the old break, or 2^64 - 1 when nothing is granted. */
    method Brk(size: nat) returns (r: nat)
      modifies this`heapBreak
      ensures heapBreak == old(heapBreak) +
        if heapStart != 0 && old(heapBreak) + size <= heapLimit then size else 0
      ensures r == if heapStart != 0 && (size == 0 || old(heapBreak) + size <= heapLimit)
        then old(heapBreak) else 0xFFFF_FFFF_FFFF_FFFF
      ensures Heap(heapStart, heapBreak, heapLimit) == AfterBrk(old(Heap(heapStart, heapBreak, heapLimit)), size)
    {
      if heapStart == 0 {
        return TOP - 1;
      }
      if size == 0 {
        return heapBreak;
      }
      if heapBreak > heapLimit || size > heapLimit - heapBreak {
        return TOP - 1;
      }
      r := heapBreak;
      heapBreak := heapBreak + size;
    }
  }

  ghost predicate IsLoaded(image: seq<U8>, start: nat, was: seq<U8>, now: seq<U8>)
    requires Readable(image)
  {
    var segs := Loads(image, HeaderOf(image).phnum);
    AllSound(image, segs, LoadBase(start, segs), MinVaddr(segs), |was|) &&
    now == Placed(was, image, segs, LoadBase(start, segs), MinVaddr(segs))
  }

  lemma FitsMeans(image: seq<U8>, start: nat, segs: seq<Segment>)
    ensures Fits(image, start, segs) <==>
      (FilesFit(image, segs) && MinVaddr(segs) != TOP - 1 && MaxVaddr(segs) - MinVaddr(segs) <= PROCESS_SIZE &&
       HeapStart(start, segs) <= HeapLimit(start))
  {
  }

  lemma NoLoads(image: seq<U8>)
    requires Readable(image)
    ensures Loads(image, 0) == [] && FilesFit(image, [])
    ensures MinVaddr([]) == TOP - 1 && MaxVaddr([]) == 0 && MaxAlign([]) == 1
  {
  }

  lemma LoadsNext(image: seq<U8>, i: nat)
    requires Readable(image) && i < HeaderOf(image).phnum
    ensures SegmentAt(image, i).kind == PT_LOAD ==> Loads(image, i + 1) == Loads(image, i) + [SegmentAt(image, i)]
    ensures SegmentAt(image, i).kind != PT_LOAD ==> Loads(image, i + 1) == Loads(image, i)
  {
    hide Readable, HeaderOf, SegmentAt;
  }

  lemma MeasuresNext(image: seq<U8>, segs: seq<Segment>, seg: Segment)
    ensures MinVaddr(segs + [seg]) == if seg.vaddr < MinVaddr(segs) then seg.vaddr else MinVaddr(segs)
    ensures MaxVaddr(segs + [seg]) ==
      if seg.vaddr + seg.memsz > MaxVaddr(segs) then seg.vaddr + seg.memsz else MaxVaddr(segs)
    ensures MaxAlign(segs + [seg]) == if seg.align > MaxAlign(segs) then seg.align else MaxAlign(segs)
    ensures FilesFit(image, segs + [seg]) <==>
      FilesFit(image, segs) && seg.filesz <= seg.memsz && seg.offset + seg.filesz <= |image|
  {
    assert (segs + [seg])[..|segs|] == segs;
    assert seg in segs + [seg];
    assert forall s | s in segs :: s in segs + [seg];
  }

  lemma FewerFit(image: seq<U8>, segs: seq<Segment>, more: seq<Segment>)
    requires segs <= more
    ensures FilesFit(image, more) ==> FilesFit(image, segs)
  {
  }

  lemma LayoutFits64(image: seq<U8>, start: nat, segs: seq<Segment>)
    requires MinVaddr(segs) != TOP - 1 && MaxVaddr(segs) - MinVaddr(segs) <= PROCESS_SIZE
    requires start + MaxAlign(segs) + 2 * PROCESS_SIZE <= TOP
    ensures 0 <= MaxVaddr(segs) - MinVaddr(segs)
    ensures Sum64(LoadBase(start, segs), MaxVaddr(segs) - MinVaddr(segs)) == ImageEnd(start, segs)
    ensures Sum64(ImageEnd(start, segs), 15) == ImageEnd(start, segs) + 15
  {
    assert segs != [] && segs[0] in segs;
    Extremes(segs, segs[0]);
    hide MinVaddr, MaxVaddr, MaxAlign;
  }

  lemma SoundWithin(image: seq<U8>, segs: seq<Segment>, base: nat, min: nat, limit: int, limit': nat)
    requires AllSound(image, segs, base, min, limit) && limit <= limit'
    ensures AllSound(image, segs, base, min, limit')
  {
  }

  lemma NothingPlaced(memory: seq<U8>, image: seq<U8>, base: nat, min: nat)
    ensures Placed(memory, image, [], base, min) == memory
  {
  }

  lemma SoundMeans(image: seq<U8>, seg: Segment, base: nat, min: nat, limit: nat)
    requires Sound(image, seg, base, min, limit)
    ensures seg.filesz <= seg.memsz && seg.offset + seg.filesz <= |image| && min <= seg.vaddr
    ensures base + (seg.vaddr - min) + seg.memsz <= limit
  {
  }

  lemma PlacedNext(memory: seq<U8>, image: seq<U8>, segs: seq<Segment>, seg: Segment, base: nat, min: nat)
    requires AllSound(image, segs, base, min, |memory|) && Sound(image, seg, base, min, |memory|)
    ensures AllSound(image, segs + [seg], base, min, |memory|)
    ensures Placed(memory, image, segs + [seg], base, min) ==
      With(Placed(memory, image, segs, base, min), image, seg, base + (seg.vaddr - min))
  {
    assert (segs + [seg])[..|segs|] == segs;
  }

  lemma {:induction false} LoadsGrow(image: seq<U8>, i: nat, n: nat)
    requires Readable(image) && i <= n <= HeaderOf(image).phnum
    ensures Loads(image, i) <= Loads(image, n)
    decreases n
  {
    hide Readable, HeaderOf, SegmentAt;
    if i < n {
      LoadsGrow(image, i, n - 1);
      LoadsNext(image, n - 1);
    }
  }
}
