/** The 64-bit population count, and what it says about words of 2-bit fields. */
module PopCount {
  const ODD: bv64 := 0x5555555555555555
  const EVEN: bv64 := 0xAAAAAAAAAAAAAAAA

  // ----- the count as the source computes it, stage by stage -----

  function Halves(v: bv64): bv64 { v - ((v >> 1) & 0x5555555555555555) }
  function Pairs(v: bv64): bv64 { (v & 0x3333333333333333) + ((v >> 2) & 0x3333333333333333) }
  function Nibbles(v: bv64): bv64 { (v + (v >> 4)) & 0x0F0F0F0F0F0F0F0F }
  function TopByte(v: bv64): bv8 { ((v * 0x0101010101010101) >> 56) as bv8 }

  /** `cnt`. */
  function Cnt(v: bv64): bv8 {
    TopByte(Nibbles(Pairs(Halves(v))))
  }

  // ----- what it should compute -----

  /** How many of the `n` low bits are set. */
  ghost function Ones(v: bv64, n: nat): nat {
    if n == 0 then 0 else ((v & 1) as int) + Ones(v >> 1, n - 1)
  }

  /** The sum of the `n` low 2-bit fields. */
  ghost function Weight(v: bv64, n: nat): nat {
    if n == 0 then 0 else ((v & 3) as int) + Weight(v >> 2, n - 1)
  }

  // ----- subtracting in the first stage is adding neighbours -----

  ghost function Low(v: bv64): bv64 { v & 0x5555555555555555 }
  ghost function High(v: bv64): bv64 { (v >> 1) & 0x5555555555555555 }

  lemma LowHigh(v: bv64)
    ensures v == Low(v) + (High(v) + High(v))
  {
  }

  lemma HalvesAdd(v: bv64)
    ensures Halves(v) == Low(v) + High(v)
  {
    assert v == Low(v) + (High(v) + High(v)) by { LowHigh(v); }
  }

  // ----- three stages leave the count of every byte in that byte -----

  ghost function Byte(v: bv64): bv8 { (v & 0xFF) as bv8 }

  ghost function ByteOnes(b: bv8): bv8 {
    (b & 1) + ((b >> 1) & 1) + ((b >> 2) & 1) + ((b >> 3) & 1) +
    ((b >> 4) & 1) + ((b >> 5) & 1) + ((b >> 6) & 1) + ((b >> 7) & 1)
  }

  ghost function Spread(v: bv64): bv64 { Nibbles(Pairs(Low(v) + High(v))) }

  lemma SpreadCounts(v: bv64)
    ensures Byte(Spread(v)) == ByteOnes(Byte(v)) && Byte(Spread(v) >> 8) == ByteOnes(Byte(v >> 8))
    ensures Byte(Spread(v) >> 16) == ByteOnes(Byte(v >> 16)) && Byte(Spread(v) >> 24) == ByteOnes(Byte(v >> 24))
    ensures Byte(Spread(v) >> 32) == ByteOnes(Byte(v >> 32)) && Byte(Spread(v) >> 40) == ByteOnes(Byte(v >> 40))
    ensures Byte(Spread(v) >> 48) == ByteOnes(Byte(v >> 48)) && Byte(Spread(v) >> 56) == ByteOnes(Byte(v >> 56))
  {
  }

  // ----- the multiplication adds the eight bytes -----

  ghost function Twice(v: bv64): bv64 { v + (v << 8) }
  ghost function Fourfold(v: bv64): bv64 { v + (v << 16) }
  ghost function Eightfold(v: bv64): bv64 { v + (v << 32) }

  lemma Horner(v: bv64)
    ensures v * 0x0101010101010101 == Eightfold(Fourfold(Twice(v)))
  {
    Shifts(v);
    assert Fourfold(Twice(v)) == v + (v << 8) + (v << 16) + (v << 24) by {
      assert Twice(v) == v + (v << 8);
      Four(v);
    }
    Eight(v);
  }

  lemma Shifts(v: bv64)
    ensures v * 0x0101010101010101 ==
      v + (v << 8) + (v << 16) + (v << 24) + (v << 32) + (v << 40) + (v << 48) + (v << 56)
  {
  }

  lemma Four(v: bv64)
    ensures Fourfold(v + (v << 8)) == v + (v << 8) + (v << 16) + (v << 24)
  {
  }

  lemma Eight(v: bv64)
    ensures Eightfold(v + (v << 8) + (v << 16) + (v << 24)) ==
      v + (v << 8) + (v << 16) + (v << 24) + (v << 32) + (v << 40) + (v << 48) + (v << 56)
  {
  }

  /** The same steps with the room of each byte written as a mask. */
  ghost function Twos(v: bv64): bv64 { Twice(v & 0x0F0F0F0F0F0F0F0F) }
  ghost function Fours(v: bv64): bv64 { Fourfold(v & 0x1F1F1F1F1F1F1F1F) }
  ghost function Eights(v: bv64): bv64 { Eightfold(v & 0x3F3F3F3F3F3F3F3F) }

  lemma NoCarry(v: bv64)
    ensures Twos(Nibbles(v)) == Twice(Nibbles(v))
    ensures Fours(Twos(v)) == Fourfold(Twos(v))
    ensures Eights(Fours(v)) == Eightfold(Fours(v))
  {
    assert Nibbles(v) & 0x0F0F0F0F0F0F0F0F == Nibbles(v);
    assert Twos(v) & 0x1F1F1F1F1F1F1F1F == Twos(v);
    assert Fours(v) & 0x3F3F3F3F3F3F3F3F == Fours(v);
  }

  ghost function Add(x: bv8, y: bv8): bv8 { x + y }

  ghost predicate Small(x: bv8) { x <= 62 }

  lemma AddExact(x: bv8, y: bv8)
    requires Small(x) && Small(y)
    ensures Add(x, y) as int == (x as int) + (y as int)
  {
  }

  lemma NibblesSmall(x: bv64)
    ensures Small(Byte(Nibbles(x))) && Small(Byte(Nibbles(x) >> 8))
    ensures Small(Byte(Nibbles(x) >> 16)) && Small(Byte(Nibbles(x) >> 24))
    ensures Small(Byte(Nibbles(x) >> 32)) && Small(Byte(Nibbles(x) >> 40))
    ensures Small(Byte(Nibbles(x) >> 48)) && Small(Byte(Nibbles(x) >> 56))
  {
  }

  lemma TwosSmall(x: bv64)
    ensures Small(Byte(Twos(x) >> 8)) && Small(Byte(Twos(x) >> 24))
    ensures Small(Byte(Twos(x) >> 40)) && Small(Byte(Twos(x) >> 56))
  {
  }

  lemma FoursSmall(x: bv64)
    ensures Small(Byte(Fours(x) >> 24)) && Small(Byte(Fours(x) >> 56))
  {
  }

  lemma TwosTopBits(v: bv64)
    ensures Byte(Twos(Nibbles(v)) >> 56) == Add(Byte(Nibbles(v) >> 56), Byte(Nibbles(v) >> 48))
    ensures Byte(Twos(Nibbles(v)) >> 40) == Add(Byte(Nibbles(v) >> 40), Byte(Nibbles(v) >> 32))
    ensures Byte(Twos(Nibbles(v)) >> 24) == Add(Byte(Nibbles(v) >> 24), Byte(Nibbles(v) >> 16))
    ensures Byte(Twos(Nibbles(v)) >> 8) == Add(Byte(Nibbles(v) >> 8), Byte(Nibbles(v)))
  {
  }

  lemma FoursTopBits(v: bv64)
    ensures Byte(Fours(Twos(v)) >> 56) == Add(Byte(Twos(v) >> 56), Byte(Twos(v) >> 40))
    ensures Byte(Fours(Twos(v)) >> 24) == Add(Byte(Twos(v) >> 24), Byte(Twos(v) >> 8))
  {
  }

  lemma EightsTopBits(v: bv64)
    ensures Byte(Eights(Fours(v)) >> 56) == Add(Byte(Fours(v) >> 56), Byte(Fours(v) >> 24))
  {
  }

  /** Byte `k` of a word, as a number. */
  ghost function Octet(v: bv64, k: nat): nat
    requires k < 8
  {
    match k
    case 0 => Byte(v) as int
    case 1 => Byte(v >> 8) as int
    case 2 => Byte(v >> 16) as int
    case 3 => Byte(v >> 24) as int
    case 4 => Byte(v >> 32) as int
    case 5 => Byte(v >> 40) as int
    case 6 => Byte(v >> 48) as int
    case _ => Byte(v >> 56) as int
  }

  lemma TwosTop(v: bv64)
    ensures Octet(Twos(Nibbles(v)), 7) == Octet(Nibbles(v), 7) + Octet(Nibbles(v), 6)
    ensures Octet(Twos(Nibbles(v)), 5) == Octet(Nibbles(v), 5) + Octet(Nibbles(v), 4)
    ensures Octet(Twos(Nibbles(v)), 3) == Octet(Nibbles(v), 3) + Octet(Nibbles(v), 2)
    ensures Octet(Twos(Nibbles(v)), 1) == Octet(Nibbles(v), 1) + Octet(Nibbles(v), 0)
  {
    hide Byte, Nibbles, Twos, Add, Small;
    TwosTopBits(v);
    NibblesSmall(v);
    AddExact(Byte(Nibbles(v) >> 56), Byte(Nibbles(v) >> 48));
    AddExact(Byte(Nibbles(v) >> 40), Byte(Nibbles(v) >> 32));
    AddExact(Byte(Nibbles(v) >> 24), Byte(Nibbles(v) >> 16));
    AddExact(Byte(Nibbles(v) >> 8), Byte(Nibbles(v)));
  }

  lemma FoursTop(v: bv64)
    ensures Octet(Fours(Twos(v)), 7) == Octet(Twos(v), 7) + Octet(Twos(v), 5)
    ensures Octet(Fours(Twos(v)), 3) == Octet(Twos(v), 3) + Octet(Twos(v), 1)
  {
    hide Byte, Twos, Fours, Add, Small;
    FoursTopBits(v);
    TwosSmall(v);
    AddExact(Byte(Twos(v) >> 56), Byte(Twos(v) >> 40));
    AddExact(Byte(Twos(v) >> 24), Byte(Twos(v) >> 8));
  }

  lemma EightsTop(v: bv64)
    ensures Octet(Eights(Fours(v)), 7) == Octet(Fours(v), 7) + Octet(Fours(v), 3)
  {
    hide Byte, Fours, Eights, Add, Small;
    EightsTopBits(v);
    FoursSmall(v);
    AddExact(Byte(Fours(v) >> 56), Byte(Fours(v) >> 24));
  }

  lemma TopIsByte(v: bv64)
    ensures TopByte(v) == Byte((v * 0x0101010101010101) >> 56)
  {
  }

  lemma TopOfProduct(v: bv64)
    ensures TopByte(v) as int == Octet(Eightfold(Fourfold(Twice(v))), 7)
  {
    hide Byte, TopByte, Eightfold, Fourfold, Twice;
    TopIsByte(v);
    Horner(v);
  }

  lemma Masked(v: bv64)
    ensures Eightfold(Fourfold(Twice(Nibbles(v)))) == Eights(Fours(Twos(Nibbles(v))))
  {
    hide *;
    var n := Nibbles(v);
    NoCarry(v);
    NoCarry(n);
    NoCarry(Twos(n));
  }

  ghost function Sum8(v: bv64): nat {
    Octet(v, 7) + Octet(v, 6) + Octet(v, 5) + Octet(v, 4) +
    Octet(v, 3) + Octet(v, 2) + Octet(v, 1) + Octet(v, 0)
  }

  lemma TopByteAdds(v: bv64)
    ensures TopByte(Nibbles(v)) as int == Sum8(Nibbles(v))
  {
    hide Octet, TopByte, Nibbles, Twos, Fours, Eights, Twice, Fourfold, Eightfold, Byte;
    var n := Nibbles(v);
    TopOfProduct(n);
    Masked(v);
    EightsTop(Twos(n));
    FoursTop(n);
    TwosTop(v);
  }

  lemma CntSpread(v: bv64)
    ensures Cnt(v) as int == Sum8(Spread(v))
  {
    hide Halves, Low, High, Pairs, Nibbles, TopByte, Sum8;
    HalvesAdd(v);
    TopByteAdds(Pairs(Halves(v)));
  }

  // ----- the count is exact -----

  ghost function Bit(v: bv64): nat { (v & 1) as int }

  lemma ByteOnesExact(v: bv64)
    ensures ByteOnes(Byte(v)) as int ==
      Bit(v) + Bit(v >> 1) + Bit(v >> 2) + Bit(v >> 3) + Bit(v >> 4) + Bit(v >> 5) + Bit(v >> 6) + Bit(v >> 7)
  {
  }

  /** The set bits of the lowest byte. */
  ghost function Lowest(v: bv64): nat { ByteOnes(Byte(v)) as int }

  lemma OnesOfByte(v: bv64, n: nat)
    ensures Ones(v, n + 8) == Lowest(v) + Ones(v >> 8, n)
  {
    hide ByteOnes, Byte;
    ByteOnesExact(v);
    assert Ones(v, n + 8) == Bit(v) + Ones(v >> 1, n + 7);
    assert Ones(v >> 1, n + 7) == Bit(v >> 1) + Ones(v >> 2, n + 6);
    assert Ones(v >> 2, n + 6) == Bit(v >> 2) + Ones(v >> 3, n + 5);
    assert Ones(v >> 3, n + 5) == Bit(v >> 3) + Ones(v >> 4, n + 4);
    assert Ones(v >> 4, n + 4) == Bit(v >> 4) + Ones(v >> 5, n + 3);
    assert Ones(v >> 5, n + 3) == Bit(v >> 5) + Ones(v >> 6, n + 2);
    assert Ones(v >> 6, n + 2) == Bit(v >> 6) + Ones(v >> 7, n + 1);
    assert Ones(v >> 7, n + 1) == Bit(v >> 7) + Ones(v >> 8, n);
  }

  /** The set bits of the lower and of the upper four bytes. */
  ghost function LowerHalf(v: bv64): nat {
    Lowest(v) + Lowest(v >> 8) + Lowest(v >> 16) + Lowest(v >> 24)
  }

  ghost function UpperHalf(v: bv64): nat {
    Lowest(v >> 32) + Lowest(v >> 40) + Lowest(v >> 48) + Lowest(v >> 56)
  }

  lemma OnesOfLower(v: bv64)
    ensures Ones(v, 64) == LowerHalf(v) + Ones(v >> 32, 32)
  {
    hide Lowest, Ones;
    assert Ones(v, 64) == Lowest(v) + Ones(v >> 8, 56) by { OnesOfByte(v, 56); }
    assert Ones(v >> 8, 56) == Lowest(v >> 8) + Ones(v >> 16, 48) by { OnesOfByte(v >> 8, 48); }
    assert Ones(v >> 16, 48) == Lowest(v >> 16) + Ones(v >> 24, 40) by { OnesOfByte(v >> 16, 40); }
    assert Ones(v >> 24, 40) == Lowest(v >> 24) + Ones(v >> 32, 32) by { OnesOfByte(v >> 24, 32); }
  }

  lemma OnesOfUpper(v: bv64)
    ensures Ones(v >> 32, 32) == UpperHalf(v)
  {
    hide Lowest, Ones;
    assert Ones(v >> 32, 32) == Lowest(v >> 32) + Ones(v >> 40, 24) by { OnesOfByte(v >> 32, 24); }
    assert Ones(v >> 40, 24) == Lowest(v >> 40) + Ones(v >> 48, 16) by { OnesOfByte(v >> 40, 16); }
    assert Ones(v >> 48, 16) == Lowest(v >> 48) + Ones(v >> 56, 8) by { OnesOfByte(v >> 48, 8); }
    assert Ones(v >> 56, 8) == Lowest(v >> 56) by {
      OnesOfByte(v >> 56, 0);
      NoOnes(v >> 56 >> 8);
    }
  }

  lemma NoOnes(v: bv64)
    ensures Ones(v, 0) == 0
  {
  }

  lemma SpreadSum(v: bv64)
    ensures Sum8(Spread(v)) == LowerHalf(v) + UpperHalf(v)
  {
    hide Spread, Byte, ByteOnes;
    SpreadCounts(v);
  }

  /** `cnt` is the number of set bits, for every 64-bit word. */
  lemma CntExact(v: bv64)
    ensures Cnt(v) as int == Ones(v, 64)
  {
    hide *;
    CntSpread(v);
    SpreadSum(v);
    OnesOfLower(v);
    OnesOfUpper(v);
  }

  // ----- words of 2-bit fields -----

  ghost function OddLane(v: bv64): bv64 { v & ODD }
  ghost function EvenLane(v: bv64): bv64 { v & EVEN }
  ghost function NextField(v: bv64): bv64 { v >> 2 }

  lemma {:induction false} LanesOnes(v: bv64, n: nat)
    ensures Ones(OddLane(v), 2 * n) + 2 * Ones(EvenLane(v), 2 * n) == Weight(v, n)
    decreases n
  {
    hide *;
    if n == 0 {
      NoOnes(OddLane(v));
      NoOnes(EvenLane(v));
      NoWeight(v);
    } else {
      LanesOnes(NextField(v), n - 1);
      LanesShift(v);
      FieldBits(OddLane(v), 2 * n);
      FieldBits(EvenLane(v), 2 * n);
      WeightStep(v, n);
    }
  }

  ghost function TwoBits(v: bv64): nat { Bit(v) + Bit(v >> 1) }
  ghost function Field(v: bv64): nat { (v & 3) as int }

  lemma FieldBits(v: bv64, n: nat)
    requires n >= 2
    ensures Ones(v, n) == TwoBits(v) + Ones(NextField(v), n - 2)
  {
    assert Ones(v, n) == Bit(v) + Ones(v >> 1, n - 1);
    assert Ones(v >> 1, n - 1) == Bit(v >> 1) + Ones(v >> 2, n - 2);
  }

  lemma LanesShift(v: bv64)
    ensures NextField(OddLane(v)) == OddLane(NextField(v)) && NextField(EvenLane(v)) == EvenLane(NextField(v))
    ensures TwoBits(OddLane(v)) + 2 * TwoBits(EvenLane(v)) == Field(v)
  {
  }

  lemma NoWeight(v: bv64)
    ensures Weight(v, 0) == 0
  {
  }

  lemma WeightStep(v: bv64, n: nat)
    requires n > 0
    ensures Weight(v, n) == Field(v) + Weight(NextField(v), n - 1)
  {
  }

  /** Counting the two bit lanes separately, the upper one twice, adds up the 2-bit fields. */
  lemma LanesWeigh(v: bv64)
    ensures Cnt(v & ODD) as int + 2 * (Cnt(v & EVEN) as int) == Weight(v, 32)
  {
    hide Cnt, Ones, Weight;
    CntExact(v & ODD);
    CntExact(v & EVEN);
    LanesOnes(v, 32);
  }
}
