/** The memory manager: a stack of 2-bit entries, each worth 0 to 3 units of 128 KiB. */
module MemoryMapping {
  import opened PopCount

  type U16 = x: int | 0 <= x < 0x1_0000
  type U64 = x: int | 0 <= x < 0x1_0000_0000_0000_0000

  const MAP_BYTES := 16384
  /** Bytes in a unit. */
  const UNIT := 128 * 1024

  // ----- what a map says -----

  ghost function Entry(map8: seq<bv8>, a: nat): (units: nat)
    requires a < 4 * |map8|
  {
    CrumbOf(map8[a / 4], a % 4)
  }

  ghost function CrumbOf(b: bv8, j: nat): nat
    requires j < 4
  {
    ((b >> (2 * j)) & 3) as int
  }

  /** The units in the entries below `a`. */
  ghost function Units(map8: seq<bv8>, a: nat): nat
    requires a <= 4 * |map8|
  {
    if a == 0 then 0 else Units(map8, a - 1) + Entry(map8, a - 1)
  }

  /** The units below an entry, entry by entry: two bits each, four to a byte, lowest first. */
  lemma UnitsMeans(map8: seq<bv8>, a: nat)
    requires a < 4 * |map8|
    ensures Units(map8, 0) == 0
    ensures Units(map8, a + 1) == Units(map8, a) + ((map8[a / 4] >> (2 * (a % 4))) & 3) as int
  {
  }

  /** The address `mm_find` computes: the unit count is kept in 16 bits. */
  ghost function AddressOf(base: U64, units: nat, offset: U16): U64 {
    (base + UNIT * (units % 0x1_0000) + offset) % 0x1_0000_0000_0000_0000
  }

  // ----- 64-bit words over the map -----

  /** The little-endian word stored in eight bytes. */
  function Word(b: seq<bv8>): bv64
    requires |b| == 8
  {
    Joined(b[0], b[1], b[2], b[3], b[4], b[5], b[6], b[7])
  }

  function Joined(b0: bv8, b1: bv8, b2: bv8, b3: bv8, b4: bv8, b5: bv8, b6: bv8, b7: bv8): bv64 {
    (b0 as bv64) | ((b1 as bv64) << 8) | ((b2 as bv64) << 16) | ((b3 as bv64) << 24) |
    ((b4 as bv64) << 32) | ((b5 as bv64) << 40) | ((b6 as bv64) << 48) | ((b7 as bv64) << 56)
  }

  ghost function LoadByte(w: bv64, k: nat): bv8
    requires k < 8
  {
    match k
    case 0 => (w & 0xFF) as bv8
    case 1 => ((w >> 8) & 0xFF) as bv8
    case 2 => ((w >> 16) & 0xFF) as bv8
    case 3 => ((w >> 24) & 0xFF) as bv8
    case 4 => ((w >> 32) & 0xFF) as bv8
    case 5 => ((w >> 40) & 0xFF) as bv8
    case 6 => ((w >> 48) & 0xFF) as bv8
    case _ => ((w >> 56) & 0xFF) as bv8
  }

  lemma LoadJoined(b0: bv8, b1: bv8, b2: bv8, b3: bv8, b4: bv8, b5: bv8, b6: bv8, b7: bv8)
    ensures LoadByte(Joined(b0, b1, b2, b3, b4, b5, b6, b7), 0) == b0
    ensures LoadByte(Joined(b0, b1, b2, b3, b4, b5, b6, b7), 1) == b1
    ensures LoadByte(Joined(b0, b1, b2, b3, b4, b5, b6, b7), 2) == b2
    ensures LoadByte(Joined(b0, b1, b2, b3, b4, b5, b6, b7), 3) == b3
    ensures LoadByte(Joined(b0, b1, b2, b3, b4, b5, b6, b7), 4) == b4
    ensures LoadByte(Joined(b0, b1, b2, b3, b4, b5, b6, b7), 5) == b5
    ensures LoadByte(Joined(b0, b1, b2, b3, b4, b5, b6, b7), 6) == b6
    ensures LoadByte(Joined(b0, b1, b2, b3, b4, b5, b6, b7), 7) == b7
  {
  }

  ghost function FieldAt(w: bv64, n: nat): nat {
    if n == 0 then Field(w) else FieldAt(NextField(w), n - 1)
  }

  ghost function NextByte(w: bv64): bv64 { w >> 8 }

  lemma ByteShift(w: bv64, k: nat)
    requires 0 < k < 8
    ensures LoadByte(NextByte(w), k - 1) == LoadByte(w, k)
  {
    hide LoadByte, NextByte;
    ByteShifts(w);
  }

  lemma ByteShifts(w: bv64)
    ensures LoadByte(NextByte(w), 0) == LoadByte(w, 1)
    ensures LoadByte(NextByte(w), 1) == LoadByte(w, 2)
    ensures LoadByte(NextByte(w), 2) == LoadByte(w, 3)
    ensures LoadByte(NextByte(w), 3) == LoadByte(w, 4)
    ensures LoadByte(NextByte(w), 4) == LoadByte(w, 5)
    ensures LoadByte(NextByte(w), 5) == LoadByte(w, 6)
    ensures LoadByte(NextByte(w), 6) == LoadByte(w, 7)
  {
  }

  lemma FourFields(w: bv64)
    ensures NextField(NextField(NextField(NextField(w)))) == NextByte(w)
    ensures Field(w) == CrumbOf(LoadByte(w, 0), 0) && Field(NextField(w)) == CrumbOf(LoadByte(w, 0), 1)
    ensures Field(NextField(NextField(w))) == CrumbOf(LoadByte(w, 0), 2)
    ensures Field(NextField(NextField(NextField(w)))) == CrumbOf(LoadByte(w, 0), 3)
  {
  }

  /** The two-bit fields of a word are those of its bytes. */
  lemma {:induction false} FieldOfByte(w: bv64, n: nat)
    requires n < 32
    ensures FieldAt(w, n) == CrumbOf(LoadByte(w, n / 4), n % 4)
    decreases n
  {
    hide LoadByte, NextByte, NextField, Field, CrumbOf;
    FourFields(w);
    FirstFields(w, n);
    if n >= 4 {
      FieldOfByte(NextByte(w), n - 4);
      ByteShift(w, n / 4);
    }
  }

  lemma FirstFields(w: bv64, n: nat)
    ensures n == 0 ==> FieldAt(w, n) == Field(w)
    ensures n == 1 ==> FieldAt(w, n) == Field(NextField(w))
    ensures n == 2 ==> FieldAt(w, n) == Field(NextField(NextField(w)))
    ensures n == 3 ==> FieldAt(w, n) == Field(NextField(NextField(NextField(w))))
    ensures n >= 4 ==> FieldAt(w, n) == FieldAt(NextField(NextField(NextField(NextField(w)))), n - 4)
  {
    hide Field, NextField;
    if n >= 2 {
      assert FieldAt(w, n) == FieldAt(NextField(w), n - 1) == FieldAt(NextField(NextField(w)), n - 2);
      if n >= 3 {
        assert FieldAt(NextField(NextField(w)), n - 2) == FieldAt(NextField(NextField(NextField(w))), n - 3);
      }
    }
  }

  lemma {:induction false} WeightLast(w: bv64, n: nat)
    ensures Weight(w, n + 1) == Weight(w, n) + FieldAt(w, n)
    decreases n
  {
    hide Weight, NextField, Field;
    WeightStep(w, n + 1);
    if n == 0 {
      assert FieldAt(w, 0) == Field(w);
      NoWeight(w);
      NoWeight(NextField(w));
    } else {
      WeightLast(NextField(w), n - 1);
      WeightStep(w, n);
    }
  }

  /** Word `i` of the map, in memory order. */
  ghost predicate IsChunk(map8: seq<bv8>, i: nat, w: bv64) {
    8 * i + 8 <= |map8| && forall k: nat | k < 8 :: LoadByte(w, k) == map8[8 * i + k]
  }

  lemma ChunkEntry(map8: seq<bv8>, i: nat, w: bv64, n: nat)
    requires IsChunk(map8, i, w) && n < 32
    ensures FieldAt(w, n) == Entry(map8, 32 * i + n)
  {
    hide FieldAt, LoadByte, CrumbOf;
    FieldOfByte(w, n);
    assert (32 * i + n) / 4 == 8 * i + n / 4 && (32 * i + n) % 4 == n % 4;
    assert LoadByte(w, n / 4) == map8[8 * i + n / 4];
  }

  lemma {:induction false} ChunkUnits(map8: seq<bv8>, i: nat, w: bv64, n: nat)
    requires IsChunk(map8, i, w) && n <= 32
    ensures Units(map8, 32 * i + n) == Units(map8, 32 * i) + Weight(w, n)
    decreases n
  {
    hide Weight, FieldAt, Entry, LoadByte;
    if n == 0 {
      NoWeight(w);
    } else {
      ChunkUnits(map8, i, w, n - 1);
      WeightLast(w, n - 1);
      ChunkEntry(map8, i, w, n - 1);
      assert Units(map8, 32 * i + n) == Units(map8, 32 * i + n - 1) + Entry(map8, 32 * i + n - 1);
    }
  }

  // ----- the mask of the last, partial word -----

  function Mask(n: nat): bv64
    requires n < 32
  {
    (1 << (2 * n)) - 1
  }

  ghost function Below(w: bv64, m: bv64): bv64 { w & m }
  ghost function Widened(m: bv64): bv64 { (m << 2) | 3 }

  lemma MaskStep(n: nat)
    requires 0 < n < 32
    ensures Mask(n) == Widened(Mask(n - 1))
  {
    hide Mask, Widened;
    if n < 16 {
      MaskStepLow(n);
    } else if n < 24 {
      MaskStepMiddle(n);
    } else {
      MaskStepHigh(n);
    }
  }

  lemma MaskStepLow(n: nat)
    requires 0 < n < 16
    ensures Mask(n) == Widened(Mask(n - 1))
  {
  }

  lemma MaskStepMiddle(n: nat)
    requires 16 <= n < 24
    ensures Mask(n) == Widened(Mask(n - 1))
  {
  }

  lemma MaskStepHigh(n: nat)
    requires 24 <= n < 32
    ensures Mask(n) == Widened(Mask(n - 1))
  {
  }

  lemma MaskedField(w: bv64, m: bv64)
    ensures Field(Below(w, Widened(m))) == Field(w)
    ensures NextField(Below(w, Widened(m))) == Below(NextField(w), m)
  {
  }

  lemma NothingBelow(w: bv64)
    ensures Below(w, Mask(0)) == 0
  {
  }

  lemma NextOfZero()
    ensures NextField(0) == 0 && Field(0) == 0
  {
  }

  lemma {:induction false} WeightZero(n: nat)
    ensures Weight(0, n) == 0
    decreases n
  {
    hide NextField, Field;
    if n > 0 {
      NextOfZero();
      WeightStep(0, n);
      WeightZero(n - 1);
    }
  }

  /** Masking keeps exactly the first `r` fields. */
  lemma {:induction false} MaskedWeight(w: bv64, r: nat, n: nat)
    requires r < 32 && r <= n
    ensures Weight(Below(w, Mask(r)), n) == Weight(w, r)
    decreases n
  {
    hide *;
    if r == 0 {
      NothingBelow(w);
      WeightZero(n);
      NoWeight(w);
    } else {
      MaskStep(r);
      MaskedField(w, Mask(r - 1));
      WeightStep(Below(w, Mask(r)), n);
      WeightStep(w, r);
      MaskedWeight(NextField(w), r - 1, n - 1);
    }
  }

  /** What `mm_find` adds for one word. */
  function LaneSum(w: bv64): nat {
    Cnt(w & ODD) as int + 2 * (Cnt(w & EVEN) as int)
  }

  lemma MaskedLanes(w: bv64, r: nat)
    requires r < 32
    ensures LaneSum(w & Mask(r)) == Weight(w, r)
  {
    hide Cnt, Weight, Mask, LaneSum;
    assert LaneSum(Below(w, Mask(r))) == Weight(Below(w, Mask(r)), 32) by { LaneSumWeighs(Below(w, Mask(r))); }
    MaskedWeight(w, r, 32);
  }

  lemma LaneSumWeighs(w: bv64)
    ensures LaneSum(w) == Weight(w, 32)
  {
    hide Cnt, Weight;
    LanesWeigh(w);
  }

  ghost predicate CountsUpTo(map8: seq<bv8>, a: nat, sum: U16) {
    a <= 4 * |map8| && sum == Units(map8, a) % 0x1_0000
  }

  lemma FullWord(map8: seq<bv8>, i: nat, w: bv64, sum: U16)
    requires IsChunk(map8, i, w) && CountsUpTo(map8, 32 * i, sum)
    ensures CountsUpTo(map8, 32 * (i + 1), (sum + LaneSum(w)) % 0x1_0000)
  {
    hide LaneSum, Weight, LoadByte, Units;
    ChunkUnits(map8, i, w, 32);
    LaneSumWeighs(w);
  }

  lemma PartialWord(map8: seq<bv8>, i: nat, w: bv64, r: nat, sum: U16)
    requires IsChunk(map8, i, w) && CountsUpTo(map8, 32 * i, sum) && r < 32
    ensures CountsUpTo(map8, 32 * i + r, (sum + LaneSum(w & Mask(r))) % 0x1_0000)
  {
    hide LaneSum, Weight, LoadByte, Units, Mask;
    ChunkUnits(map8, i, w, r);
    MaskedLanes(w, r);
  }

  lemma AddressIs(map8: seq<bv8>, a: nat, sum: U16, base: U64, offset: U16)
    requires CountsUpTo(map8, a, sum)
    ensures a <= 4 * |map8|
    ensures AddressOf(base, Units(map8, a), offset) == (base + 128 * (sum * 1024) + offset) % 0x1_0000_0000_0000_0000
  {
  }

  lemma CountsNothing(map8: seq<bv8>)
    ensures CountsUpTo(map8, 0, 0)
  {
  }

  // ----- storing an entry -----

  /** A byte with entry `j` wiped, and with two bits of `v` put there. */
  function Wiped(b: bv8, j: nat): bv8
    requires j < 4
  {
    b & !((3 as bv8) << (2 * j))
  }

  function WithBits(b: bv8, j: nat, v: bv8): bv8
    requires j < 4
  {
    b | ((v & 3) << (2 * j))
  }

  lemma ReplacedCrumbs(b: bv8, j: nat, v: bv8, k: nat)
    requires j < 4 && k < 4
    ensures CrumbOf(WithBits(Wiped(b, j), j, v), k) == if k == j then (v & 3) as int else CrumbOf(b, k)
  {
    hide CrumbOf, Wiped, WithBits;
    if k == j {
      NewCrumb(b, j, v);
    } else if k < j {
      LowerCrumb(b, j, v, k);
    } else {
      HigherCrumb(b, j, v, k);
    }
  }

  lemma NewCrumb(b: bv8, j: nat, v: bv8)
    requires j < 4
    ensures CrumbOf(WithBits(Wiped(b, j), j, v), j) == (v & 3) as int
  {
  }

  lemma LowerCrumb(b: bv8, j: nat, v: bv8, k: nat)
    requires k < j < 4
    ensures CrumbOf(WithBits(Wiped(b, j), j, v), k) == CrumbOf(b, k)
  {
  }

  lemma HigherCrumb(b: bv8, j: nat, v: bv8, k: nat)
    requires j < k < 4
    ensures CrumbOf(WithBits(Wiped(b, j), j, v), k) == CrumbOf(b, k)
  {
  }

  lemma {:induction false} SameEntries(map8: seq<bv8>, map8': seq<bv8>, a: nat)
    requires a <= 4 * |map8| && |map8| == |map8'|
    requires forall b: nat | b < a :: Entry(map8, b) == Entry(map8', b)
    ensures Units(map8, a) == Units(map8', a)
  {
    hide Entry;
    if a > 0 {
      SameEntries(map8, map8', a - 1);
    }
  }

  // ----- requests -----

  /** A request for `val` KiB takes units of 128 KiB, up to three in an entry. */
  function UnitsFor(val: U16): nat { (val + 127) / 128 }
  function EntriesFor(val: U16): nat { (UnitsFor(val) + 2) / 3 }

  /** The least number of units that hold `val` KiB, the least number of entries that hold them, and
      when there is no room for those entries. */
  lemma RequestInNumbers(val: U16, top: U16)
    ensures 128 * (UnitsFor(val) - 1) < val <= 128 * UnitsFor(val)
    ensures 3 * (EntriesFor(val) - 1) < UnitsFor(val) <= 3 * EntriesFor(val)
    ensures Refused(top, val) <==> val == 0 || top + (val - 1) / 384 + 1 > 0xFFFF
  {
  }

  /** Entry `n` of a request. */
  ghost function Share(units: nat, n: nat): nat {
    if units >= 3 * n + 3 then 3 else if units >= 3 * n then units - 3 * n else 0
  }

  /** A request is refused when it is empty or its entries would reach index 0xFFFF. */
  predicate Refused(top: U16, val: U16) {
    val == 0 || EntriesFor(val) > 0xFFFF - top
  }

  /** Only entry `top` is new. */
  ghost predicate OneEntry(was: seq<bv8>, now: seq<bv8>, top: U16, units: nat) {
    |was| == |now| == MAP_BYTES && forall a: U16 :: Entry(now, a) == if a == top then units else Entry(was, a)
  }

  /** Only the entries from `top` to `top'` are new, and they hold the start of a request. */
  ghost predicate Filled(was: seq<bv8>, now: seq<bv8>, top: U16, top': U16, units: nat) {
    |was| == |now| == MAP_BYTES &&
    forall a: U16 :: Entry(now, a) == if top <= a < top' then Share(units, a - top) else Entry(was, a)
  }

  lemma FilledNone(now: seq<bv8>, top: U16, units: nat)
    requires |now| == MAP_BYTES
    ensures Filled(now, now, top, top, units)
  {
  }

  lemma FilledNext(was: seq<bv8>, mid: seq<bv8>, now: seq<bv8>, top: U16, top': U16, units: nat)
    requires top <= top' < 0xFFFF && Filled(was, mid, top, top', units)
    requires OneEntry(mid, now, top', Share(units, top' - top))
    ensures Filled(was, now, top, top' + 1, units)
  {
    hide Entry, Share;
  }

  // ----- the manager -----

  class MemoryManager {
    const base: U64
    var spTop: U16
    var spBot: U16
    const map8: array<bv8>

    ghost predicate Valid()
      reads this
    {
      map8.Length == MAP_BYTES && spBot == 0xFFFF
    }

    /** Units below entry `a`. */
    ghost function UnitsBelow(a: U16): nat
      requires Valid()
      reads this, map8
    {
      Units(map8[..], a)
    }

    /** `mm_init`. */
    constructor (base: U64)
      ensures Valid() && this.base == base && spTop == 0 && fresh(map8)
    {
      this.base := base;
      spTop, spBot := 0, 0xFFFF;
      map8 := new bv8[MAP_BYTES](_ => 0);
    }

    /** `MMv5_regu_push`: replaces two bits in place. */
    method RegularPush(val: bv8) returns (result: U16)
      requires Valid()
      modifies this`spTop, map8
      ensures Valid() && result == old(spTop) && spTop == (old(spTop) + 1) % 0x1_0000
      ensures OneEntry(old(map8[..]), map8[..], old(spTop), (val & 3) as int)
    {
      hide Wiped, WithBits, OneEntry;
      var byteIdx := spTop / 4;
      var j := spTop % 4;
      ghost var was := map8[..];
      map8[byteIdx] := Wiped(map8[byteIdx], j);
      map8[byteIdx] := WithBits(map8[byteIdx], j, val);
      assert map8[..] == was[byteIdx := WithBits(Wiped(was[byteIdx], j), j, val)];
      PushedEntries(was, map8[..], spTop, val);
      result := spTop;
      spTop := (spTop + 1) % 0x1_0000;
    }

    /** `mm_creat`: the handle of the first entry, or 0 with nothing changed. */
    method Create(val: U16) returns (allocation: U16)
      requires Valid()
      modifies this`spTop, map8
      ensures Valid()
      ensures Refused(old(spTop), val) ==>
        allocation == 0 && spTop == old(spTop) && map8[..] == old(map8[..])
      ensures !Refused(old(spTop), val) ==>
        allocation == old(spTop) && spTop == old(spTop) + EntriesFor(val)
      ensures !Refused(old(spTop), val) ==>
        Filled(old(map8[..]), map8[..], old(spTop), spTop, UnitsFor(val))
      ensures UnitsBelow(spTop) == old(UnitsBelow(spTop)) + if Refused(old(spTop), val) then 0 else UnitsFor(val)
      ensures forall a: U16 | old(spTop) <= a <= spTop ::
        var n := 3 * (a - old(spTop));
        UnitsBelow(a) == old(UnitsBelow(spTop)) + if n <= UnitsFor(val) then n else UnitsFor(val)
      ensures forall a: U16 | a <= old(spTop) :: UnitsBelow(a) == old(UnitsBelow(a))
    {
      hide Filled, OneEntry, Units, Entry;
      if val == 0 {
        return 0;
      }
      var remaining := (val + 127) / 128;
      var entryCount := (remaining + 2) / 3;
      var available := 0xFFFF - spTop;
      var capacity := map8.Length * 4;
      if spTop >= spBot || entryCount > available || spTop + entryCount > capacity {
        return 0;
      }
      allocation := spTop;
      FilledNone(map8[..], spTop, remaining);
      while remaining != 0
        invariant Valid() && allocation == old(spTop) <= spTop
        invariant spTop - allocation + (remaining + 2) / 3 == entryCount
        invariant remaining ==
          if UnitsFor(val) >= 3 * (spTop - allocation) then UnitsFor(val) - 3 * (spTop - allocation) else 0
        invariant Filled(old(map8[..]), map8[..], allocation, spTop, UnitsFor(val))
      {
        ghost var now, top := map8[..], spTop;
        var units: bv8 := if remaining > 3 then 3 else remaining as bv8;
        UnitsFit(remaining, units);
        var _ := RegularPush(units);
        FilledNext(old(map8[..]), now, map8[..], allocation, top, UnitsFor(val));
        remaining := remaining - units as int;
      }
      GrantAddsUnits(old(map8[..]), map8[..], allocation, val);
    }

    /** `mm_find`: the address of offset `offset` past entry `a`. */
    method Find(a: U16, offset: U16) returns (address: U64)
      requires Valid()
      ensures address == AddressOf(base, UnitsBelow(a), offset)
    {
      hide LaneSum, IsChunk, Mask, CountsUpTo, Units, AddressOf;
      var calculated: U16 := 0;
      CountsNothing(map8[..]);
      var quotient, rest := a / 32, a % 32;
      var i := 0;
      while i < quotient
        invariant 0 <= i <= quotient && CountsUpTo(map8[..], 32 * i, calculated)
      {
        var chunk := ReadChunk(i);
        FullWord(map8[..], i, chunk, calculated);
        calculated := (calculated + LaneSum(chunk)) % 0x1_0000;
        i := i + 1;
      }
      if rest > 0 {
        var last := ReadChunk(quotient);
        PartialWord(map8[..], quotient, last, rest, calculated);
        calculated := (calculated + LaneSum(last & Mask(rest))) % 0x1_0000;
      }
      AddressIs(map8[..], a, calculated, base, offset);
      address := (base + 128 * (calculated * 1024) + offset) % 0x1_0000_0000_0000_0000;
    }

    /** The eight bytes of word `i`, copied one by one. */
    method ReadChunk(i: nat) returns (chunk: bv64)
      requires Valid() && i < 2048
      ensures IsChunk(map8[..], i, chunk)
    {
      var bytes := new bv8[8](_ => 0);
      var j := 0;
      while j < 8
        invariant 0 <= j <= 8
        invariant forall k | 0 <= k < j :: bytes[k] == map8[8 * i + k]
      {
        bytes[j] := map8[8 * i + j];
        j := j + 1;
      }
      chunk := Word(bytes[..]);
      WordIsChunk(map8[..], i, bytes[..]);
    }
  }

  lemma WordIsChunk(map8: seq<bv8>, i: nat, bytes: seq<bv8>)
    requires |bytes| == 8 && 8 * i + 8 <= |map8|
    requires forall k | 0 <= k < 8 :: bytes[k] == map8[8 * i + k]
    ensures IsChunk(map8, i, Word(bytes))
  {
    hide LoadByte, Joined;
    LoadJoined(bytes[0], bytes[1], bytes[2], bytes[3], bytes[4], bytes[5], bytes[6], bytes[7]);
  }

  lemma UnitsFit(remaining: nat, units: bv8)
    requires units == if remaining > 3 then 3 else remaining as bv8
    ensures units as int == (units & 3) as int == if remaining > 3 then 3 else remaining
  {
  }

  lemma PushedEntries(was: seq<bv8>, now: seq<bv8>, top: U16, val: bv8)
    requires |was| == MAP_BYTES && now == was[top / 4 := WithBits(Wiped(was[top / 4], top % 4), top % 4, val)]
    ensures OneEntry(was, now, top, (val & 3) as int)
  {
    hide CrumbOf, Wiped, WithBits;
    forall a: U16
      ensures Entry(now, a) == if a == top then (val & 3) as int else Entry(was, a)
    {
      if a / 4 == top / 4 {
        ReplacedCrumbs(was[top / 4], top % 4, val, a % 4);
      }
    }
  }

  lemma {:induction false} SharesSum(map8: seq<bv8>, top: nat, units: nat, n: nat)
    requires top + n <= 4 * |map8|
    requires forall a: nat | top <= a < top + n :: Entry(map8, a) == Share(units, a - top)
    ensures Units(map8, top + n) == Units(map8, top) + if units >= 3 * n then 3 * n else units
    decreases n
  {
    hide Entry;
    if n > 0 {
      SharesSum(map8, top, units, n - 1);
      assert Units(map8, top + n) == Units(map8, top + n - 1) + Entry(map8, top + n - 1);
    }
  }

  lemma GrantAddsUnits(was: seq<bv8>, now: seq<bv8>, top: U16, val: U16)
    requires !Refused(top, val) && Filled(was, now, top, top + EntriesFor(val), UnitsFor(val))
    ensures Units(now, top + EntriesFor(val)) == Units(was, top) + UnitsFor(val)
    ensures forall a: U16 | a <= top :: Units(now, a) == Units(was, a)
    ensures forall a: U16 | top <= a <= top + EntriesFor(val) ::
      var n := 3 * (a - top);
      Units(now, a) == Units(was, top) + if n <= UnitsFor(val) then n else UnitsFor(val)
  {
    hide Entry;
    forall a: U16 | a <= top
      ensures Units(now, a) == Units(was, a)
    {
      SameEntries(was, now, a);
    }
    SharesSum(now, top, UnitsFor(val), EntriesFor(val));
    forall a: U16 | top <= a <= top + EntriesFor(val)
      ensures Units(now, a) == Units(now, top) + if 3 * (a - top) <= UnitsFor(val) then 3 * (a - top) else UnitsFor(val)
    {
      SharesSum(now, top, UnitsFor(val), a - top);
    }
  }

  // ----- runs of requests -----

  /** What a request gets: a handle and its range of units, or nothing. */
  datatype Grant = Nothing | Grant(handle: nat, first: nat, units: nat)

  /** The grants of a series of requests, from a map with `top` entries worth `used` units. */
  function Plan(top: U16, used: nat, requests: seq<U16>): (grants: seq<Grant>)
    ensures |grants| == |requests|
    decreases |requests|
  {
    if requests == [] then []
    else if Refused(top, requests[0]) then [Nothing] + Plan(top, used, requests[1..])
    else
      [Grant(top, used, UnitsFor(requests[0]))] +
      Plan(top + EntriesFor(requests[0]), used + UnitsFor(requests[0]), requests[1..])
  }

  function Granted(grants: seq<Grant>): nat {
    if grants == [] then 0
    else (if grants[0].Grant? then grants[0].units else 0) + Granted(grants[1..])
  }

  /** Each granted range starts where the ones before it end: no gap and no overlap. */
  lemma {:induction false} Consecutive(top: U16, used: nat, requests: seq<U16>, i: nat)
    requires i < |requests|
    ensures var g := Plan(top, used, requests)[i];
      g.Grant? ==> g.first == used + Granted(Plan(top, used, requests)[..i]) && top <= g.handle <= 0xFFFF && g.units > 0
    ensures i == 0 ==> (Plan(top, used, requests)[i].Nothing? <==> Refused(top, requests[0]))
    decreases |requests|
  {
    var grants := Plan(top, used, requests);
    if i > 0 {
      var rest := grants[1..];
      assert grants[..i] == [grants[0]] + rest[..i - 1];
      if Refused(top, requests[0]) {
        Consecutive(top, used, requests[1..], i - 1);
      } else {
        Consecutive(top + EntriesFor(requests[0]), used + UnitsFor(requests[0]), requests[1..], i - 1);
      }
    }
  }

  lemma {:induction false} GrantedSplit(grants: seq<Grant>, i: nat)
    requires i <= |grants|
    ensures Granted(grants) == Granted(grants[..i]) + Granted(grants[i..])
  {
    if i > 0 {
      GrantedSplit(grants[1..], i - 1);
      assert grants[..i] == [grants[0]] + grants[1..][..i - 1];
      assert grants[1..][i - 1..] == grants[i..];
    } else {
      assert grants[0..] == grants && grants[..0] == [];
    }
  }

  /** Ranges of different grants never share a unit. */
  lemma Disjoint(top: U16, used: nat, requests: seq<U16>, i: nat, j: nat)
    requires i < j < |requests|
    ensures var grants := Plan(top, used, requests);
      grants[i].Grant? && grants[j].Grant? ==> grants[i].first + grants[i].units <= grants[j].first
  {
    var grants := Plan(top, used, requests);
    Consecutive(top, used, requests, i);
    Consecutive(top, used, requests, j);
    GrantedSplit(grants[..j], i);
    assert grants[..j][..i] == grants[..i] && grants[..j][i..][0] == grants[i];
  }

  /** The computed address is the true one exactly while the count fits in 16 bits. */
  lemma AddressExact(base: U64, units: nat, offset: U16)
    requires base + UNIT * units + offset < 0x1_0000_0000_0000_0000
    ensures AddressOf(base, units, offset) == base + UNIT * units + offset <==> units < 0x1_0000
  {
  }

  /** From there on it starts over: 65536 units more lead to the same address. */
  lemma AddressWraps(base: U64, units: nat, offset: U16)
    ensures AddressOf(base, units + 0x1_0000, offset) == AddressOf(base, units, offset)
    ensures AddressOf(base, units, offset) == (base + 0x2_0000 * (units % 0x1_0000) + offset) % 0x1_0000_0000_0000_0000
  {
    assert units + 0x1_0000 == (units / 0x1_0000 + 1) * 0x1_0000 + units % 0x1_0000;
  }

  /** 129 requests of the largest size are all granted, and the last is given the address of
      the first. */
  lemma FullMapWraps(base: U64)
    ensures var grants := Plan(0, 0, seq(129, _ => 0xFFFF));
      grants[0] == Grant(0, 0, 512) && grants[128] == Grant(21888, 0x1_0000, 512) &&
      AddressOf(base, grants[128].first, 0) == AddressOf(base, grants[0].first, 0)
  {
    LargeRequests(0, 0, 129, 0);
    LargeRequests(0, 0, 129, 128);
  }

  lemma {:induction false} LargeRequests(top: U16, used: nat, n: nat, i: nat)
    requires i < n && top + 171 * n <= 0xFFFF
    ensures Plan(top, used, seq(n, _ => 0xFFFF))[i] == Grant(top + 171 * i, used + 512 * i, 512)
    decreases i
  {
    if i > 0 {
      assert seq(n, _ => 0xFFFF as U16)[1..] == seq(n - 1, _ => 0xFFFF as U16);
      LargeRequests(top + 171, used + 512, n - 1, i - 1);
    }
  }

  /** Any run of `mm_creat` gives out the planned grants, and `mm_find` still finds every one of
      them, at its own units, when the run is over. */
  method Run(m: MemoryManager, requests: seq<U16>) returns (handles: seq<U16>, ghost grants: seq<Grant>)
    requires m.Valid()
    modifies m`spTop, m.map8
    ensures m.Valid() && grants == Plan(old(m.spTop), old(m.UnitsBelow(m.spTop)), requests)
    ensures |handles| == |grants|
    ensures forall i | 0 <= i < |grants| :: handles[i] == if grants[i].Grant? then grants[i].handle else 0
    ensures forall i | 0 <= i < |grants| && grants[i].Grant? ::
      grants[i].handle < 0x1_0000 && m.UnitsBelow(grants[i].handle) == grants[i].first
    ensures m.UnitsBelow(m.spTop) == old(m.UnitsBelow(m.spTop)) + Granted(grants)
    ensures forall a: U16 | a <= old(m.spTop) :: m.UnitsBelow(a) == old(m.UnitsBelow(a))
    ensures old(m.spTop) <= m.spTop
    decreases |requests|
  {
    hide Units, Filled, UnitsFor, EntriesFor, AddressOf, Refused;
    if requests == [] {
      return [], [];
    }
    ghost var top, used := m.spTop, m.UnitsBelow(m.spTop);
    var handle := m.Create(requests[0]);
    ghost var first := if Refused(top, requests[0]) then Nothing else Grant(top, used, UnitsFor(requests[0]));
    handles, grants := Run(m, requests[1..]);
    handles, grants := [handle] + handles, [first] + grants;
  }
}
