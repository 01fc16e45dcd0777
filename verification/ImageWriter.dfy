/** Images written from a list of segments, and what the loader makes of them. */
module ImageWriting {
  import opened Arithmetic
  import opened ImageLoading

  // ----- numbers in little-endian order -----

  function Pow256(n: nat): (p: nat)
    ensures p > 0
  {
    if n == 0 then 1 else 256 * Pow256(n - 1)
  }

  function Bytes(x: nat, n: nat): (bs: seq<U8>)
    ensures |bs| == n
    decreases n
  {
    if n == 0 then [] else [x % 256] + Bytes(x / 256, n - 1)
  }

  /** What was written is what is read. */
  lemma {:induction false} FieldRead(image: seq<U8>, at: nat, x: nat, n: nat)
    requires at + n <= |image| && image[at..at + n] == Bytes(x, n) && x < Pow256(n)
    ensures Field(image, at, n) == x
    decreases n
  {
    if n > 0 {
      var bs := image[at..at + n];
      assert image[at] == bs[0] && image[at + 1..at + n] == bs[1..];
      assert bs[1..] == Bytes(x / 256, n - 1);
      FieldRead(image, at + 1, x / 256, n - 1);
    }
  }

  /** What is read is what was written, so that every field has one meaning. */
  lemma {:induction false} FieldWritten(image: seq<U8>, at: nat, n: nat)
    requires at + n <= |image|
    ensures Field(image, at, n) < Pow256(n) && Bytes(Field(image, at, n), n) == image[at..at + n]
    decreases n
  {
    if n > 0 {
      FieldWritten(image, at + 1, n - 1);
      var x, rest := Field(image, at, n), Field(image, at + 1, n - 1);
      ModUnique(x, rest, image[at], 256);
      assert image[at..at + n] == [image[at]] + image[at + 1..at + n];
    }
  }

  /** Which headers are valid, byte by byte. */
  lemma ValidExactly(image: seq<U8>)
    ensures ValidHeader(image) <==>
      |image| >= 64 && image[..6] == [0x7F, 0x45, 0x4C, 0x46, 2, 1] &&
      image[18..20] == [183, 0] && image[54..56] == [56, 0] &&
      (Field(image, 32, 8) + 56 * Field(image, 56, 2)) % 0x1_0000_0000_0000_0000 <= |image|
  {
    if |image| >= 64 {
      TwoBytes(image, 18);
      TwoBytes(image, 54);
      hide Field;
    }
  }

  lemma TwoBytes(image: seq<U8>, at: nat)
    requires at + 2 <= |image|
    ensures Field(image, at, 2) == image[at] as int + 256 * (image[at + 1] as int)
  {
    FieldOne(image, at + 1);
    assert Field(image, at, 2) == image[at] as nat + 256 * Field(image, at + 1, 1);
  }

  lemma BehindFirst<T>(first: seq<T>, rest: seq<T>, lo: nat, hi: nat)
    requires lo <= hi <= |rest|
    ensures (first + rest)[|first| + lo..|first| + hi] == rest[lo..hi]
  {
    var s := (first + rest)[|first| + lo..|first| + hi];
    forall j | 0 <= j < hi - lo
      ensures s[j] == rest[lo..hi][j]
    {
      assert s[j] == (first + rest)[|first| + lo + j];
    }
  }

  lemma SliceOfSlice<T>(s: seq<T>, a: nat, b: nat, lo: nat, hi: nat)
    requires a <= b <= |s| && lo <= hi <= b - a
    ensures s[a..b][lo..hi] == s[a + lo..a + hi]
  {
    var t := s[a..b];
    forall j | 0 <= j < hi - lo
      ensures t[lo..hi][j] == s[a + lo..a + hi][j]
    {
      assert t[lo + j] == s[a + (lo + j)];
    }
  }

  // ----- records: fields one after the other -----

  datatype Item = Item(value: nat, width: nat)

  function Record(items: seq<Item>): (bs: seq<U8>)
    ensures |bs| == Width(items)
  {
    if items == [] then [] else Bytes(items[0].value, items[0].width) + Record(items[1..])
  }

  function Width(items: seq<Item>): nat {
    if items == [] then 0 else items[0].width + Width(items[1..])
  }

  lemma {:induction false} RecordAt(items: seq<Item>, i: nat)
    requires i < |items|
    ensures Width(items[..i]) + items[i].width <= Width(items)
    ensures var at, item := Width(items[..i]), items[i];
      Record(items)[at..at + item.width] == Bytes(item.value, item.width)
    decreases |items|
  {
    var first := Bytes(items[0].value, items[0].width);
    if i > 0 {
      var rest := items[1..];
      RecordAt(rest, i - 1);
      assert items[..i][1..] == rest[..i - 1];
      var w := Width(rest[..i - 1]);
      BehindFirst(first, Record(rest), w, w + items[i].width);
    }
  }

  /** Field `i` of a record that stands at `base` in an image. */
  lemma ItemRead(image: seq<U8>, base: nat, items: seq<Item>, i: nat, at: nat)
    requires base + Width(items) <= |image| && image[base..base + Width(items)] == Record(items)
    requires i < |items| && at == Width(items[..i]) && items[i].value < Pow256(items[i].width)
    ensures base + at + items[i].width <= |image| && Field(image, base + at, items[i].width) == items[i].value
  {
    RecordAt(items, i);
    var w := items[i].width;
    SliceOfSlice(image, base, base + Width(items), at, at + w);
    FieldRead(image, base + at, items[i].value, w);
  }

  // ----- an image -----

  /** The file header, field by field; the table of segments stands at `phoff`. */
  function FileHeader(entry: nat, phoff: nat, phnum: nat): seq<Item> {
    [Item(0x7F, 1), Item(0x45, 1), Item(0x4C, 1), Item(0x46, 1), Item(2, 1), Item(1, 1), Item(0, 10),
     Item(2, 2), Item(183, 2), Item(1, 4), Item(entry, 8), Item(phoff, 8), Item(0, 8), Item(0, 4),
     Item(64, 2), Item(56, 2), Item(phnum, 2), Item(0, 2), Item(0, 2), Item(0, 2)]
  }

  function SegmentHeader(seg: Segment): seq<Item> {
    [Item(seg.kind, 4), Item(5, 4), Item(seg.offset, 8), Item(seg.vaddr, 8), Item(0, 8),
     Item(seg.filesz, 8), Item(seg.memsz, 8), Item(seg.align, 8)]
  }

  function Table(segs: seq<Segment>): seq<U8> {
    if segs == [] then [] else Record(SegmentHeader(segs[0])) + Table(segs[1..])
  }

  /** The header, some bytes, the table, and the rest of the file. */
  function Written(entry: nat, segs: seq<Segment>, gap: seq<U8>, body: seq<U8>): seq<U8> {
    Record(FileHeader(entry, 64 + |gap|, |segs|)) + gap + Table(segs) + body
  }

  /** All numbers fit into their fields. */
  predicate Fitting(entry: nat, segs: seq<Segment>, gap: seq<U8>) {
    entry < 0x1_0000_0000_0000_0000 && |segs| < 0x1_0000 &&
    64 + |gap| + 56 * |segs| < 0x1_0000_0000_0000_0000 &&
    forall i | 0 <= i < |segs| :: SegmentFitting(segs[i])
  }

  predicate SegmentFitting(seg: Segment) {
    seg.kind < 0x1_0000_0000 && seg.offset < 0x1_0000_0000_0000_0000 && seg.vaddr < 0x1_0000_0000_0000_0000 &&
    seg.filesz < 0x1_0000_0000_0000_0000 && seg.memsz < 0x1_0000_0000_0000_0000 &&
    seg.align < 0x1_0000_0000_0000_0000
  }

  lemma Powers()
    ensures Pow256(1) == 0x100 && Pow256(2) == 0x1_0000 && Pow256(4) == 0x1_0000_0000
    ensures Pow256(8) == 0x1_0000_0000_0000_0000
  {
    assert Pow256(0) == 1 && Pow256(1) == 256 * Pow256(0) && Pow256(2) == 256 * Pow256(1);
    assert Pow256(3) == 256 * Pow256(2) && Pow256(4) == 256 * Pow256(3) && Pow256(5) == 256 * Pow256(4);
    assert Pow256(6) == 256 * Pow256(5) && Pow256(7) == 256 * Pow256(6) && Pow256(8) == 256 * Pow256(7);
  }

  lemma {:induction false} WidthNext(items: seq<Item>, i: nat)
    requires i < |items|
    ensures Width(items[..i + 1]) == Width(items[..i]) + items[i].width
    decreases |items|
  {
    if i > 0 {
      assert items[..i + 1][1..] == items[1..][..i] && items[..i][1..] == items[1..][..i - 1];
      WidthNext(items[1..], i - 1);
    }
  }

  /** Where the fields of the two records start. */
  function HeaderOffset(i: nat): nat {
    if i <= 6 then i else if i <= 20 then [16, 18, 20, 24, 32, 40, 48, 52, 54, 56, 58, 60, 62, 64][i - 7] else 64
  }

  function SegmentOffset(i: nat): nat {
    if i <= 8 then [0, 4, 8, 16, 24, 32, 40, 48, 56][i] else 56
  }

  lemma {:induction false} HeaderOffsetIs(entry: nat, phoff: nat, phnum: nat, i: nat)
    requires i <= 20
    ensures Width(FileHeader(entry, phoff, phnum)[..i]) == HeaderOffset(i)
    decreases i
  {
    if i > 0 {
      HeaderOffsetIs(entry, phoff, phnum, i - 1);
      WidthNext(FileHeader(entry, phoff, phnum), i - 1);
    }
  }

  lemma {:induction false} SegmentOffsetIs(seg: Segment, i: nat)
    requires i <= 8
    ensures Width(SegmentHeader(seg)[..i]) == SegmentOffset(i)
    decreases i
  {
    if i > 0 {
      SegmentOffsetIs(seg, i - 1);
      WidthNext(SegmentHeader(seg), i - 1);
    }
  }

  lemma RecordSizes(entry: nat, phoff: nat, phnum: nat, seg: Segment)
    ensures Width(FileHeader(entry, phoff, phnum)) == 64 && Width(SegmentHeader(seg)) == 56
  {
    HeaderOffsetIs(entry, phoff, phnum, 20);
    SegmentOffsetIs(seg, 8);
    assert FileHeader(entry, phoff, phnum)[..20] == FileHeader(entry, phoff, phnum);
    assert SegmentHeader(seg)[..8] == SegmentHeader(seg);
  }

  lemma {:induction false} TableAt(segs: seq<Segment>, i: nat)
    ensures |Table(segs)| == 56 * |segs|
    ensures i < |segs| ==> Table(segs)[56 * i..56 * i + 56] == Record(SegmentHeader(segs[i]))
    decreases |segs|
  {
    hide Record, SegmentHeader, FileHeader, Width;
    if segs != [] {
      RecordSizes(0, 0, 0, segs[0]);
      TableAt(segs[1..], if i > 0 then i - 1 else 0);
      var first, rest := Record(SegmentHeader(segs[0])), Table(segs[1..]);
      if 0 < i < |segs| {
        assert (first + rest)[56 * i..56 * i + 56] == rest[56 * (i - 1)..56 * (i - 1) + 56];
      }
    }
  }

  lemma HeaderRead(image: seq<U8>, entry: nat, phoff: nat, phnum: nat, i: nat, at: nat, value: nat, width: nat)
    requires |image| >= 64 && image[0..64] == Record(FileHeader(entry, phoff, phnum)) && i < 20
    requires FileHeader(entry, phoff, phnum)[i] == Item(value, width) && at == HeaderOffset(i) && value < Pow256(width)
    ensures at + width <= |image| && Field(image, at, width) == value
  {
    RecordSizes(entry, phoff, phnum, Segment(0, 0, 0, 0, 0, 0));
    HeaderOffsetIs(entry, phoff, phnum, i);
    hide Record, Width, Pow256, Field;
    ItemRead(image, 0, FileHeader(entry, phoff, phnum), i, at);
  }

  lemma SegmentRead(image: seq<U8>, base: nat, seg: Segment, i: nat, at: nat, value: nat, width: nat)
    requires base + 56 <= |image| && image[base..base + 56] == Record(SegmentHeader(seg)) && i < 8
    requires SegmentHeader(seg)[i] == Item(value, width) && at == SegmentOffset(i) && value < Pow256(width)
    ensures base + at + width <= |image| && Field(image, base + at, width) == value
  {
    RecordSizes(0, 0, 0, seg);
    SegmentOffsetIs(seg, i);
    hide Record, Width, Pow256, Field;
    ItemRead(image, base, SegmentHeader(seg), i, at);
  }

  lemma Parts(entry: nat, segs: seq<Segment>, gap: seq<U8>, body: seq<U8>, i: nat)
    ensures var image := Written(entry, segs, gap, body);
      |image| == 64 + |gap| + 56 * |segs| + |body| &&
      image[0..64] == Record(FileHeader(entry, 64 + |gap|, |segs|)) &&
      (i < |segs| ==> var at := 64 + |gap| + 56 * i; image[at..at + 56] == Record(SegmentHeader(segs[i])))
  {
    hide Record, FileHeader, SegmentHeader, Table;
    RecordSizes(entry, 64 + |gap|, |segs|, Segment(0, 0, 0, 0, 0, 0));
    TableAt(segs, i);
    var header, table := Record(FileHeader(entry, 64 + |gap|, |segs|)), Table(segs);
    var image := header + gap + table + body;
    assert image[0..64] == header;
    if i < |segs| {
      var at := 64 + |gap| + 56 * i;
      assert image[at..at + 56] == table[56 * i..56 * i + 56];
    }
  }

  /** A written image is read back: its header is valid, and its table holds the segments. */
  lemma ReadsBack(entry: nat, segs: seq<Segment>, gap: seq<U8>, body: seq<U8>)
    requires Fitting(entry, segs, gap)
    ensures var image := Written(entry, segs, gap, body);
      Readable(image) && HeaderOf(image) == Header(entry, 64 + |gap|, |segs|) &&
      forall i | 0 <= i < |segs| :: SegmentAt(image, i) == segs[i]
  {
    var image := Written(entry, segs, gap, body);
    HeaderReadsBack(entry, segs, gap, body);
    forall i | 0 <= i < |segs|
      ensures SegmentAt(image, i) == segs[i]
    {
      SegmentReadsBack(entry, segs, gap, body, i);
    }
  }

  lemma HeaderReadsBack(entry: nat, segs: seq<Segment>, gap: seq<U8>, body: seq<U8>)
    requires Fitting(entry, segs, gap)
    ensures var image := Written(entry, segs, gap, body);
      Readable(image) && HeaderOf(image) == Header(entry, 64 + |gap|, |segs|)
  {
    Parts(entry, segs, gap, body, 0);
    hide Written, Record, SegmentFitting;
    HeaderIs(Written(entry, segs, gap, body), entry, 64 + |gap|, |segs|);
  }

  lemma HeaderIs(image: seq<U8>, entry: nat, phoff: nat, phnum: nat)
    requires |image| >= 64 && image[0..64] == Record(FileHeader(entry, phoff, phnum))
    requires entry < 0x1_0000_0000_0000_0000 && phnum < 0x1_0000
    requires phoff + 56 * phnum <= |image| && phoff + 56 * phnum < 0x1_0000_0000_0000_0000
    ensures Readable(image) && HeaderOf(image) == Header(entry, phoff, phnum)
  {
    Identity(image, entry, phoff, phnum);
    HeaderFields(image, entry, phoff, phnum);
    hide Field, FileHeader, Record;
    assert HeaderOf(image) == Header(entry, phoff, phnum);
    ModUnique(phoff + phnum * PHDR, 0, phoff + phnum * PHDR, TOP);
  }

  lemma HeaderFields(image: seq<U8>, entry: nat, phoff: nat, phnum: nat)
    requires |image| >= 64 && image[0..64] == Record(FileHeader(entry, phoff, phnum))
    requires entry < 0x1_0000_0000_0000_0000 && phnum < 0x1_0000 && phoff < 0x1_0000_0000_0000_0000
    ensures Field(image, 18, 2) == 183 && Field(image, 24, 8) == entry && Field(image, 32, 8) == phoff
    ensures Field(image, 54, 2) == 56 && Field(image, 56, 2) == phnum
  {
    Powers();
    hide Record, Pow256, Field;
    HeaderRead(image, entry, phoff, phnum, 8, 18, 183, 2);
    HeaderRead(image, entry, phoff, phnum, 10, 24, entry, 8);
    HeaderRead(image, entry, phoff, phnum, 11, 32, phoff, 8);
    HeaderRead(image, entry, phoff, phnum, 15, 54, 56, 2);
    HeaderRead(image, entry, phoff, phnum, 16, 56, phnum, 2);
  }

  lemma Identity(image: seq<U8>, entry: nat, phoff: nat, phnum: nat)
    requires |image| >= 64 && image[0..64] == Record(FileHeader(entry, phoff, phnum))
    ensures image[0] == 0x7F && image[1] == 0x45 && image[2] == 0x4C && image[3] == 0x46
    ensures image[4] == 2 && image[5] == 1
  {
    Powers();
    hide Record, Pow256;
    HeaderRead(image, entry, phoff, phnum, 0, 0, 0x7F, 1);
    HeaderRead(image, entry, phoff, phnum, 1, 1, 0x45, 1);
    HeaderRead(image, entry, phoff, phnum, 2, 2, 0x4C, 1);
    HeaderRead(image, entry, phoff, phnum, 3, 3, 0x46, 1);
    HeaderRead(image, entry, phoff, phnum, 4, 4, 2, 1);
    HeaderRead(image, entry, phoff, phnum, 5, 5, 1, 1);
    hide FileHeader, HeaderOffset;
    FieldOne(image, 0);
    FieldOne(image, 1);
    FieldOne(image, 2);
    FieldOne(image, 3);
    FieldOne(image, 4);
    FieldOne(image, 5);
  }

  lemma FieldOne(image: seq<U8>, at: nat)
    requires at < |image|
    ensures Field(image, at, 1) == image[at]
  {
    assert Field(image, at + 1, 0) == 0;
  }

  lemma SegmentReadsBack(entry: nat, segs: seq<Segment>, gap: seq<U8>, body: seq<U8>, i: nat)
    requires Fitting(entry, segs, gap) && i < |segs|
    ensures var image := Written(entry, segs, gap, body);
      Readable(image) && i < HeaderOf(image).phnum && SegmentAt(image, i) == segs[i]
  {
    HeaderReadsBack(entry, segs, gap, body);
    Parts(entry, segs, gap, body, i);
    assert SegmentFitting(segs[i]);
    hide Written, Record, Readable, SegmentFitting, SegmentAt;
    SegmentIs(Written(entry, segs, gap, body), i, 64 + |gap| + 56 * i, segs[i]);
  }

  lemma SegmentIs(image: seq<U8>, i: nat, at: nat, seg: Segment)
    requires Readable(image) && i < HeaderOf(image).phnum && at == HeaderOf(image).phoff + 56 * i
    requires at + 56 <= |image| && image[at..at + 56] == Record(SegmentHeader(seg)) && SegmentFitting(seg)
    ensures SegmentAt(image, i) == seg
  {
    SegmentFields(image, at, seg);
    TableFits(HeaderOf(image).phnum, i);
    hide Field, HeaderOf, SegmentHeader, Record, SegmentFitting;
  }

  lemma SegmentFields(image: seq<U8>, at: nat, seg: Segment)
    requires at + 56 <= |image| && image[at..at + 56] == Record(SegmentHeader(seg)) && SegmentFitting(seg)
    ensures Field(image, at, 4) == seg.kind && Field(image, at + 8, 8) == seg.offset
    ensures Field(image, at + 16, 8) == seg.vaddr && Field(image, at + 32, 8) == seg.filesz
    ensures Field(image, at + 40, 8) == seg.memsz && Field(image, at + 48, 8) == seg.align
  {
    Powers();
    hide Record, Pow256, Field;
    SegmentRead(image, at, seg, 0, 0, seg.kind, 4);
    SegmentRead(image, at, seg, 2, 8, seg.offset, 8);
    SegmentRead(image, at, seg, 3, 16, seg.vaddr, 8);
    SegmentRead(image, at, seg, 5, 32, seg.filesz, 8);
    SegmentRead(image, at, seg, 6, 40, seg.memsz, 8);
    SegmentRead(image, at, seg, 7, 48, seg.align, 8);
  }

  // ----- the layout, in numbers -----

  /** The segments of type 1, in order. */
  ghost function Loadable(segs: seq<Segment>): seq<Segment> {
    if segs == [] then []
    else
      var n := |segs| - 1;
      Loadable(segs[..n]) + if segs[n].kind == 1 then [segs[n]] else []
  }

  lemma {:induction false} LoadsAre(image: seq<U8>, segs: seq<Segment>, n: nat)
    requires Readable(image) && HeaderOf(image).phnum == |segs| && n <= |segs|
    requires forall i | 0 <= i < |segs| :: SegmentAt(image, i) == segs[i]
    ensures Loads(image, n) == Loadable(segs[..n])
    decreases n
  {
    hide Readable, HeaderOf, SegmentAt;
    if n > 0 {
      LoadsAre(image, segs, n - 1);
      assert segs[..n][..n - 1] == segs[..n - 1];
      LoadsNext(image, n - 1);
    }
  }

  /** The segments reach from address `lo` to `hi`, and their greatest alignment is 2^k. */
  ghost predicate Measured(loads: seq<Segment>, lo: nat, hi: nat, k: nat) {
    (exists i :: 0 <= i < |loads| && loads[i].vaddr == lo) &&
    (exists i :: 0 <= i < |loads| && loads[i].vaddr + loads[i].memsz == hi) &&
    (k == 0 || exists i :: 0 <= i < |loads| && loads[i].align == TwoTo(k)) &&
    forall i | 0 <= i < |loads| ::
      lo <= loads[i].vaddr && loads[i].vaddr + loads[i].memsz <= hi && loads[i].align <= TwoTo(k)
  }

  lemma {:induction false} MeasuresAre(loads: seq<Segment>, lo: nat, hi: nat, align: nat)
    requires lo < 0x1_0000_0000_0000_0000 && align > 0
    requires forall i | 0 <= i < |loads| ::
      lo <= loads[i].vaddr && loads[i].vaddr + loads[i].memsz <= hi && loads[i].align <= align
    ensures MinVaddr(loads) >= lo && MaxVaddr(loads) <= hi && MaxAlign(loads) <= align
    ensures forall i | 0 <= i < |loads| :: MinVaddr(loads) <= loads[i].vaddr && loads[i].align <= MaxAlign(loads)
    ensures forall i | 0 <= i < |loads| :: loads[i].vaddr + loads[i].memsz <= MaxVaddr(loads)
    decreases |loads|
  {
    if loads != [] {
      var n := |loads| - 1;
      MeasuresAre(loads[..n], lo, hi, align);
      assert loads == loads[..n] + [loads[n]];
    }
  }

  lemma MeasuredIs(loads: seq<Segment>, lo: nat, hi: nat, k: nat)
    requires lo < 0x1_0000_0000_0000_0000 && Measured(loads, lo, hi, k)
    ensures MinVaddr(loads) == lo && MaxVaddr(loads) == hi && MaxAlign(loads) == TwoTo(k)
  {
    MeasuresAre(loads, lo, hi, TwoTo(k));
    assert TwoTo(0) == 1;
    hide MinVaddr, MaxVaddr, TwoTo;
    assert k > 0 ==> exists i :: 0 <= i < |loads| && loads[i].align == TwoTo(k);
  }

  /** Only one multiple of `p` is at or above `x` and below `x + p`. */
  lemma MultipleUnique(x: nat, p: nat, a: nat, b: nat)
    requires p > 0 && a % p == 0 && b % p == 0 && x <= a < x + p && x <= b < x + p
    ensures a == b
  {
    assert a == (a / p) * p && b == (b / p) * p;
    if a / p < b / p {
      MulMono(a / p + 1, b / p, p);
    } else if b / p < a / p {
      MulMono(b / p + 1, a / p, p);
    }
  }

  /** The base is the first multiple of the alignment, and the heap the next multiple of 16. */
  lemma LayoutIs(start: nat, loads: seq<Segment>, lo: nat, hi: nat, k: nat, base: nat, heap: nat)
    requires lo < 0x1_0000_0000_0000_0000 && Measured(loads, lo, hi, k)
    requires base % TwoTo(k) == 0 || k == 0
    requires start <= base < start + TwoTo(k)
    requires heap % 16 == 0 && base + (hi - lo) <= heap < base + (hi - lo) + 16
    ensures MinVaddr(loads) == lo && MaxVaddr(loads) == hi
    ensures LoadBase(start, loads) == base && HeapStart(start, loads) == heap
  {
    MeasuredIs(loads, lo, hi, k);
    if k > 0 {
      AlignedUpIsLeast(start, k);
      MultipleUnique(start, TwoTo(k), AlignedUp(start, TwoTo(k)), base);
      assert TwoTo(k) > 1;
    }
    assert k == 0 ==> TwoTo(k) == 1;
    hide MinVaddr, MaxVaddr, MaxAlign, AlignedUp, TwoTo;
    assert LoadBase(start, loads) == base;
    var y := base + (hi - lo) + 15;
    assert heap == (heap / 16) * 16;
    ModUnique(y, heap / 16, y - heap, 16);
  }

  // ----- loading a written image -----

  /** The sums of the fields stay within 64 bits. */
  ghost predicate Small(segs: seq<Segment>, start: nat) {
    start + 0x20_0000 < 0x1_0000_0000_0000_0000 &&
    forall i | 0 <= i < |segs| && segs[i].kind == 1 ::
      segs[i].offset + segs[i].filesz < 0x1_0000_0000_0000_0000 &&
      segs[i].vaddr + segs[i].memsz < 0x1_0000_0000_0000_0000 &&
      start + segs[i].align + 0x20_0000 < 0x1_0000_0000_0000_0000
  }

  ghost predicate Within(seg: Segment, base: nat, lo: nat, a: nat) {
    base + seg.vaddr - lo <= a < base + seg.vaddr - lo + seg.memsz
  }

  /** Memory after loading: the last segment that covers an address decides, with its file bytes in
      order and then zeros. */
  ghost predicate Holds(image: seq<U8>, loads: seq<Segment>, base: nat, lo: nat, was: seq<U8>, now: seq<U8>) {
    |now| == |was| &&
    (forall a, i | 0 <= a < |now| && 0 <= i < |loads| && LastWithin(loads, base, lo, a, i) ::
      var o := a - (base + loads[i].vaddr - lo);
      loads[i].offset + loads[i].filesz <= |image| &&
      now[a] == if o < loads[i].filesz then image[loads[i].offset + o] else 0) &&
    forall a | 0 <= a < |now| && (forall i | 0 <= i < |loads| :: !Within(loads[i], base, lo, a)) :: now[a] == was[a]
  }

  ghost predicate LastWithin(loads: seq<Segment>, base: nat, lo: nat, a: nat, i: nat)
    requires i < |loads|
  {
    Within(loads[i], base, lo, a) && forall j | i < j < |loads| :: !Within(loads[j], base, lo, a)
  }

  lemma PlacedHolds(image: seq<U8>, loads: seq<Segment>, base: nat, lo: nat, was: seq<U8>)
    requires AllSound(image, loads, base, lo, |was|)
    ensures Holds(image, loads, base, lo, was, Placed(was, image, loads, base, lo))
  {
    var now := Placed(was, image, loads, base, lo);
    hide Placed, LastWithin, Within, AllSound;
    forall a, i | 0 <= a < |now| && 0 <= i < |loads| && LastWithin(loads, base, lo, a, i)
      ensures var o := a - (base + loads[i].vaddr - lo);
        loads[i].offset + loads[i].filesz <= |image| &&
        now[a] == if o < loads[i].filesz then image[loads[i].offset + o] else 0
    {
      PlacedLast(image, loads, base, lo, was, a, i);
    }
    forall a | 0 <= a < |now| && (forall i | 0 <= i < |loads| :: !Within(loads[i], base, lo, a))
      ensures now[a] == was[a]
    {
      PlacedNowhere(image, loads, base, lo, was, a);
    }
  }

  lemma PlacedLast(image: seq<U8>, loads: seq<Segment>, base: nat, lo: nat, was: seq<U8>, a: nat, i: nat)
    requires AllSound(image, loads, base, lo, |was|) && a < |was| && i < |loads| && LastWithin(loads, base, lo, a, i)
    ensures var o := a - (base + loads[i].vaddr - lo);
      loads[i].offset + loads[i].filesz <= |image| &&
      Placed(was, image, loads, base, lo)[a] == if o < loads[i].filesz then image[loads[i].offset + o] else 0
  {
    hide Placed;
    assert Sound(image, loads[i], base, lo, |was|);
    PlacedAt(was, image, loads, base, lo, a, i + 1);
  }

  lemma PlacedNowhere(image: seq<U8>, loads: seq<Segment>, base: nat, lo: nat, was: seq<U8>, a: nat)
    requires AllSound(image, loads, base, lo, |was|) && a < |was|
    requires forall i | 0 <= i < |loads| :: !Within(loads[i], base, lo, a)
    ensures Placed(was, image, loads, base, lo)[a] == was[a]
  {
    hide Placed;
    PlacedAt(was, image, loads, base, lo, a, 0);
  }

  lemma FitsWhen(image: seq<U8>, start: nat, loads: seq<Segment>, lo: nat, hi: nat, heap: nat)
    requires MinVaddr(loads) == lo && MaxVaddr(loads) == hi && HeapStart(start, loads) == heap
    ensures Fits(image, start, loads) <==>
      (forall i | 0 <= i < |loads| ::
        loads[i].filesz <= loads[i].memsz && loads[i].offset + loads[i].filesz <= |image|) &&
      lo != 0xFFFF_FFFF_FFFF_FFFF && hi - lo <= 0x10_0000 && heap <= start + 0x10_0000 - 0x4000
  {
    hide MinVaddr, MaxVaddr, HeapStart;
    assert forall i | 0 <= i < |loads| :: loads[i] in loads;
  }

  lemma NothingWraps(image: seq<U8>, segs: seq<Segment>, start: nat)
    requires Readable(image) && HeaderOf(image).phnum == |segs| && Small(segs, start)
    requires HeaderOf(image).phoff + 56 * |segs| < 0x1_0000_0000_0000_0000
    requires forall i | 0 <= i < |segs| :: SegmentAt(image, i) == segs[i]
    ensures NoWrap(image, start)
  {
    hide Readable, ValidHeader, HeaderOf, SegmentAt;
  }

  /** Loading a written image, in numbers: it is `fine` exactly under the stated inequalities, the
      bytes of its segments then lie in memory, and the process is set up behind them. */
  method LoadWritten(p: Process, entry: nat, segs: seq<Segment>, gap: seq<U8>, body: seq<U8>,
      ghost lo: nat, ghost hi: nat, ghost k: nat, ghost base: nat, ghost heap: nat)
    returns (ok: bool, ghost fine: bool)
    requires p.Valid() && Fitting(entry, segs, gap) && Small(segs, p.start)
    requires lo < 0x1_0000_0000_0000_0000 && Measured(Loadable(segs), lo, hi, k)
    requires (base % TwoTo(k) == 0 || k == 0) && p.start <= base < p.start + TwoTo(k)
    requires heap % 16 == 0 && base + (hi - lo) <= heap < base + (hi - lo) + 16
    modifies p, p.memory
    ensures var image, loads := Written(entry, segs, gap, body), Loadable(segs);
      fine <==>
        (forall i | 0 <= i < |loads| ::
          loads[i].filesz <= loads[i].memsz && loads[i].offset + loads[i].filesz <= |image|) &&
        lo != 0xFFFF_FFFF_FFFF_FFFF && hi - lo <= 0x10_0000 && heap <= p.start + 0x10_0000 - 0x4000
    ensures ok <==> fine && lo <= entry
    ensures !fine ==> p.memory[..] == old(p.memory[..])
    ensures fine ==>
      var image, loads := Written(entry, segs, gap, body), Loadable(segs);
      forall a, i | 0 <= a < p.memory.Length && 0 <= i < |loads| && LastWithin(loads, base, lo, a, i) ::
        var o := a - (base + loads[i].vaddr - lo);
        p.memory[a] == if o < loads[i].filesz then image[loads[i].offset + o] else 0
    ensures fine ==>
      var loads := Loadable(segs);
      forall a | 0 <= a < p.memory.Length && (forall i | 0 <= i < |loads| :: !Within(loads[i], base, lo, a)) ::
        p.memory[a] == old(p.memory[a])
    ensures ok ==> p.entry == base + (entry - lo) && p.heapStart == p.heapBreak == heap
    ensures ok ==> p.heapLimit == p.start + 0x10_0000 - 0x4000
  {
    hide Written, Fitting, Measured, Small, Holds, Fits, NoWrap, ValidHeader, Within, LastWithin;
    hide LoadBase, HeapStart, MinVaddr, MaxVaddr, Loads, Loadable, TwoTo, Placed, AllSound, HeaderOf;
    var image := Written(entry, segs, gap, body);
    ghost var loads := Loadable(segs);
    ReadsBack(entry, segs, gap, body);
    LoadsAre(image, segs, |segs|);
    assert segs[..|segs|] == segs;
    FittingTable(entry, segs, gap);
    NothingWraps(image, segs, p.start);
    LayoutIs(p.start, loads, lo, hi, k, base, heap);
    FitsWhen(image, p.start, loads, lo, hi, heap);
    ghost var was := p.memory[..];
    ok := p.Load(image);
    fine := Fits(image, p.start, loads);
    if fine {
      PlacedHolds(image, loads, base, lo, was);
      HoldsMeans(image, loads, base, lo, was, p.memory[..]);
    }
  }

  lemma HoldsMeans(image: seq<U8>, loads: seq<Segment>, base: nat, lo: nat, was: seq<U8>, now: seq<U8>)
    requires Holds(image, loads, base, lo, was, now)
    ensures |now| == |was|
    ensures forall a, i | 0 <= a < |now| && 0 <= i < |loads| && LastWithin(loads, base, lo, a, i) ::
      var o := a - (base + loads[i].vaddr - lo);
      loads[i].offset + loads[i].filesz <= |image| &&
      now[a] == if o < loads[i].filesz then image[loads[i].offset + o] else 0
    ensures forall a | 0 <= a < |now| && (forall i | 0 <= i < |loads| :: !Within(loads[i], base, lo, a)) ::
      now[a] == was[a]
  {
    hide Within, LastWithin;
  }

  /** Segment `i` covers the address, and no later one does. */
  lemma LastMeans(loads: seq<Segment>, base: nat, lo: nat, a: nat, i: nat)
    requires i < |loads|
    ensures Within(loads[i], base, lo, a) <==>
      base + loads[i].vaddr <= a + lo < base + loads[i].vaddr + loads[i].memsz
    ensures LastWithin(loads, base, lo, a, i) <==>
      Within(loads[i], base, lo, a) && forall j | i < j < |loads| :: !Within(loads[j], base, lo, a)
  {
  }

  /** Segments of type 1 are loaded, others are not. */
  lemma LoadableNext(segs: seq<Segment>, seg: Segment)
    ensures Loadable([]) == [] && Loadable(segs + [seg]) == Loadable(segs) + if seg.kind == 1 then [seg] else []
  {
    assert (segs + [seg])[..|segs|] == segs;
  }

  lemma FittingTable(entry: nat, segs: seq<Segment>, gap: seq<U8>)
    requires Fitting(entry, segs, gap)
    ensures 64 + |gap| + 56 * |segs| < 0x1_0000_0000_0000_0000
  {
  }
}
