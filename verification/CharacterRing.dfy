/** The character ring between the input interrupt (one producer) and the reader (one consumer). */
module CharacterRing {
  import opened Arithmetic

  type U32 = x: int | 0 <= x < 0x1_0000_0000
  type Char = x: int | -128 <= x < 128

  const WRAP := 0x1_0000_0000
  /** VIRTIO_INPUT_CHAR_QUEUE_SIZE. */
  const SIZE := 256

  // ----- the state -----

  /** `Admitted`: room was found. `Written`: the slot is filled, the head not yet moved. */
  datatype Producer = Resting | Admitted(c: Char) | Written(c: Char)

  /** `Noticed`: a character was seen. `Fetched`: it was read, the tail not yet moved. */
  datatype Consumer = Waiting | Noticed | Fetched(c: Char)

  datatype Ring = Ring(head: U32, tail: U32, dropped: U32, slots: seq<Char>)

  /** Every character that arrived, with whether it was admitted; and what the reader got. */
  datatype History = History(arrivals: seq<(Char, bool)>, received: seq<Char>)

  datatype State = State(ring: Ring, producer: Producer, consumer: Consumer, past: History)

  datatype Step = Arrive(c: Char) | Write | Publish | Notice | Fetch | Release

  // ----- the steps -----

  /** `head - tail` in 32 bits. */
  function Used(ring: Ring): U32 {
    (ring.head - ring.tail) % WRAP
  }

  predicate Enabled(s: State, step: Step) {
    match step
    case Arrive(_) => s.producer.Resting?
    case Write => s.producer.Admitted?
    case Publish => s.producer.Written?
    case Notice => s.consumer.Waiting? && s.ring.tail != s.ring.head
    case Fetch => s.consumer.Noticed?
    case Release => s.consumer.Fetched?
  }

  function Next(s: State, step: Step): State
    requires |s.ring.slots| == SIZE && Enabled(s, step)
  {
    match step
    case Arrive(c) =>
      if Used(s.ring) >= SIZE
      then s.(ring := s.ring.(dropped := (s.ring.dropped + 1) % WRAP), past := Arrived(s.past, c, false))
      else s.(producer := Admitted(c), past := Arrived(s.past, c, true))
    case Write =>
      s.(ring := s.ring.(slots := s.ring.slots[s.ring.head % SIZE := s.producer.c]), producer := Written(s.producer.c))
    case Publish => s.(ring := s.ring.(head := (s.ring.head + 1) % WRAP), producer := Resting)
    case Notice => s.(consumer := Noticed)
    case Fetch => s.(consumer := Fetched(s.ring.slots[s.ring.tail % SIZE]))
    case Release =>
      s.(ring := s.ring.(tail := (s.ring.tail + 1) % WRAP), consumer := Waiting,
         past := s.past.(received := s.past.received + [s.consumer.c]))
  }

  function Arrived(past: History, c: Char, admitted: bool): History {
    past.(arrivals := past.arrivals + [(c, admitted)])
  }

  // ----- what the history says -----

  /** The admitted characters, in order of arrival. */
  ghost function Admissions(arrivals: seq<(Char, bool)>): seq<Char> {
    if arrivals == [] then []
    else
      var last := arrivals[|arrivals| - 1];
      Admissions(arrivals[..|arrivals| - 1]) + if last.1 then [last.0] else []
  }

  ghost function Losses(arrivals: seq<(Char, bool)>): nat {
    if arrivals == [] then 0
    else Losses(arrivals[..|arrivals| - 1]) + if arrivals[|arrivals| - 1].1 then 0 else 1
  }

  lemma ArrivalNext(arrivals: seq<(Char, bool)>, c: Char, admitted: bool)
    ensures Admissions([]) == [] && Losses([]) == 0
    ensures Admissions(arrivals + [(c, admitted)]) == Admissions(arrivals) + if admitted then [c] else []
    ensures Losses(arrivals + [(c, admitted)]) == Losses(arrivals) + if admitted then 0 else 1
  {
    assert (arrivals + [(c, admitted)])[..|arrivals|] == arrivals;
  }

  // ----- the invariant -----

  ghost function InFlight(p: Producer): nat {
    if p.Resting? then 0 else 1
  }

  /** Characters published so far. */
  ghost function Published(s: State): int {
    |Admissions(s.past.arrivals)| - InFlight(s.producer)
  }

  /** The indices are the true counts modulo 2^32, and at most SIZE apart. */
  ghost predicate Counters(s: State) {
    |s.past.received| <= Published(s) <= |s.past.received| + SIZE &&
    s.ring.head == Published(s) % WRAP && s.ring.tail == |s.past.received| % WRAP &&
    s.ring.dropped == Losses(s.past.arrivals) % WRAP
  }

  ghost predicate Slots(s: State) {
    |s.ring.slots| == SIZE && Published(s) <= |Admissions(s.past.arrivals)| &&
    forall k | |s.past.received| <= k < Published(s) :: s.ring.slots[k % SIZE] == Admissions(s.past.arrivals)[k]
  }

  ghost predicate ProducerOk(s: State) {
    var all := Admissions(s.past.arrivals);
    match s.producer
    case Resting => true
    case Admitted(c) => |all| > 0 && all[|all| - 1] == c && Published(s) < |s.past.received| + SIZE
    case Written(c) =>
      |all| > 0 && all[|all| - 1] == c && Published(s) < |s.past.received| + SIZE &&
      |s.ring.slots| == SIZE && s.ring.slots[(|all| - 1) % SIZE] == c
  }

  ghost predicate ConsumerOk(s: State) {
    var read := |s.past.received|;
    match s.consumer
    case Waiting => true
    case Noticed => read < Published(s)
    case Fetched(c) => read < Published(s) && Admissions(s.past.arrivals)[read] == c
  }

  ghost predicate Inv(s: State) {
    Counters(s) && Slots(s) && ProducerOk(s) && ConsumerOk(s) &&
    s.past.received <= Admissions(s.past.arrivals)
  }

  // ----- every step keeps it -----

  lemma UsedExact(s: State)
    requires Counters(s)
    ensures Used(s.ring) == Published(s) - |s.past.received|
  {
  }

  lemma ArriveKeeps(s: State, c: Char)
    requires Inv(s) && s.producer.Resting?
    ensures Inv(Next(s, Arrive(c)))
  {
    hide Admissions, Losses;
    UsedExact(s);
    ArrivalNext(s.past.arrivals, c, Used(s.ring) < SIZE);
  }

  /** The slot the producer fills holds no unread character. */
  lemma WriteIsSafe(s: State)
    requires Inv(s) && s.producer.Admitted?
    ensures forall k | |s.past.received| <= k < Published(s) :: k % SIZE != s.ring.head % SIZE
  {
    hide Admissions, Losses;
  }

  lemma WriteKeeps(s: State)
    requires Inv(s) && s.producer.Admitted?
    ensures Inv(Next(s, Write))
  {
    hide Admissions, Losses;
    WriteIsSafe(s);
    HeadSlot(s);
    var t := Next(s, Write);
    SamePublishedButOne(s, t);
    hide Published, Losses;
  }

  lemma HeadSlot(s: State)
    requires Counters(s)
    ensures s.ring.head % SIZE == Published(s) % SIZE
  {
    WrapSlot(Published(s));
  }

  /** Slot numbers survive the 32-bit wrap. */
  lemma WrapSlot(x: nat)
    ensures x % WRAP % SIZE == x % SIZE
  {
    var r := x % WRAP;
    ModUnique(x, x / WRAP * 0x100_0000 + r / SIZE, r % SIZE, SIZE);
  }

  lemma SamePublishedButOne(s: State, t: State)
    requires s.producer.Admitted? && t.producer.Written? && t.past == s.past
    ensures Published(t) == Published(s) == |Admissions(s.past.arrivals)| - 1
  {
  }

  lemma PublishKeeps(s: State)
    requires Inv(s) && s.producer.Written?
    ensures Inv(Next(s, Publish))
  {
    hide Admissions, Losses;
  }

  lemma NoticeKeeps(s: State)
    requires Inv(s) && Enabled(s, Notice)
    ensures Inv(Next(s, Notice))
  {
    hide Admissions, Losses;
  }

  /** The slot the consumer reads holds the oldest unread character. */
  lemma FetchIsOldest(s: State)
    requires Inv(s) && s.consumer.Noticed?
    ensures |s.past.received| < |Admissions(s.past.arrivals)|
    ensures s.ring.slots[s.ring.tail % SIZE] == Admissions(s.past.arrivals)[|s.past.received|]
  {
    hide Admissions, Losses;
    assert s.ring.tail % SIZE == |s.past.received| % SIZE;
  }

  lemma FetchKeeps(s: State)
    requires Inv(s) && s.consumer.Noticed?
    ensures Inv(Next(s, Fetch))
  {
    hide Admissions, Losses;
    FetchIsOldest(s);
  }

  lemma ReleaseCounters(s: State)
    requires Counters(s) && |s.ring.slots| == SIZE && s.consumer.Fetched? && |s.past.received| < Published(s)
    ensures Counters(Next(s, Release))
  {
    hide Published, Losses;
    assert Published(Next(s, Release)) == Published(s) by {
      SamePublished(s, Next(s, Release));
    }
  }

  lemma SamePublished(s: State, t: State)
    requires t.past.arrivals == s.past.arrivals && t.producer == s.producer
    ensures Published(t) == Published(s)
  {
  }

  lemma ReleaseKeeps(s: State)
    requires Inv(s) && s.consumer.Fetched?
    ensures Inv(Next(s, Release))
  {
    hide Admissions, Losses, Counters;
    ReleaseCounters(s);
  }

  lemma StepKeeps(s: State, step: Step)
    requires Inv(s) && Enabled(s, step)
    ensures Inv(Next(s, step))
  {
    hide Inv, Next;
    match step
    case Arrive(c) => ArriveKeeps(s, c);
    case Write => WriteKeeps(s);
    case Publish => PublishKeeps(s);
    case Notice => NoticeKeeps(s);
    case Fetch => FetchKeeps(s);
    case Release => ReleaseKeeps(s);
  }

  // ----- whole runs -----

  ghost predicate Leads(s: State, steps: seq<Step>, t: State)
    decreases |steps|
  {
    if steps == [] then s == t
    else |s.ring.slots| == SIZE && Enabled(s, steps[0]) && Leads(Next(s, steps[0]), steps[1..], t)
  }

  ghost predicate Started(s: State) {
    |s.ring.slots| == SIZE && s.ring.head == 0 && s.ring.tail == 0 && s.ring.dropped == 0 &&
    s.producer == Resting && s.consumer == Waiting && s.past == History([], [])
  }

  lemma {:induction false} LeadsKeeps(s: State, steps: seq<Step>, t: State)
    requires Inv(s) && Leads(s, steps, t)
    ensures Inv(t)
    decreases |steps|
  {
    hide Inv, Enabled, Next;
    if steps != [] {
      StepKeeps(s, steps[0]);
      LeadsKeeps(Next(s, steps[0]), steps[1..], t);
    }
  }

  /** In every interleaving the reader gets the admitted characters in order, the counter is the
      number of the others modulo 2^32, and at most SIZE characters wait. */
  lemma RunLaw(s: State, steps: seq<Step>, t: State)
    requires Started(s) && Leads(s, steps, t)
    ensures t.past.received <= Admissions(t.past.arrivals)
    ensures |Admissions(t.past.arrivals)| <= |t.past.received| + SIZE
    ensures t.ring.dropped == Losses(t.past.arrivals) % WRAP
    ensures t.producer.Resting? && t.ring.head == t.ring.tail ==> t.past.received == Admissions(t.past.arrivals)
  {
    LeadsKeeps(s, steps, t);
    hide Admissions, Losses;
  }

  /** A character is turned away exactly when 256 others wait to be read. */
  lemma DroppedWhenFull(s: State, c: Char)
    requires Inv(s) && s.producer.Resting?
    ensures Next(s, Arrive(c)).producer.Resting? <==> Published(s) == |s.past.received| + 256
  {
    UsedExact(s);
  }

  // ----- the ring in memory -----

  /** The characters that arrived, kept or not. */
  ghost function Offered(arrivals: seq<(Char, bool)>): (all: seq<Char>)
    ensures |all| == |arrivals|
  {
    seq(|arrivals|, i requires 0 <= i < |arrivals| => arrivals[i].0)
  }

  class CharacterQueue {
    const slots: array<Char>
    var head: U32
    var tail: U32
    var dropped: U32

    ghost var producer: Producer
    ghost var consumer: Consumer
    ghost var past: History

    ghost function View(): State
      reads this, slots
    {
      State(Ring(head, tail, dropped, slots[..]), producer, consumer, past)
    }

    ghost predicate Valid()
      reads this, slots
      ensures Valid() ==> slots.Length == SIZE
    {
      Inv(View())
    }

    constructor ()
      ensures Valid() && Started(View()) && fresh(slots)
    {
      slots := new Char[SIZE];
      head, tail, dropped := 0, 0, 0;
      producer, consumer, past := Resting, Waiting, History([], []);
    }

    /** `input_queue_character`, in the interrupt handler. */
    method QueueCharacter(c: Char)
      requires Valid() && producer == Resting
      modifies this`head, this`dropped, this`producer, this`past, slots
      ensures Valid() && producer == Resting && past.received == old(past.received)
      ensures past.arrivals == old(past.arrivals) + [(c, old(Used(View().ring)) < SIZE)]
    {
      hide Inv;
      IsSized(View());
      StepKeeps(View(), Arrive(c));
      if (head - tail) % WRAP >= SIZE {
        dropped := (dropped + 1) % WRAP;
        past := Arrived(past, c, false);
        return;
      }
      producer, past := Admitted(c), Arrived(past, c, true);
      StepKeeps(View(), Write);
      slots[head % SIZE] := c;
      producer := Written(c);
      StepKeeps(View(), Publish);
      head := (head + 1) % WRAP;
      producer := Resting;
    }

    /** The interrupt handler runs, and `burst` arrives. */
    method Interrupt(burst: seq<Char>)
      requires Valid() && producer == Resting
      modifies this`head, this`dropped, this`producer, this`past, slots
      ensures Valid() && producer == Resting && past.received == old(past.received)
      ensures past.arrivals == AfterBurst(old(past.arrivals), |past.received|, burst)
    {
      hide Inv, Admissions;
      var i := 0;
      assert burst[..0] == [];
      while i < |burst|
        invariant 0 <= i <= |burst| && Valid() && producer == Resting && past.received == old(past.received)
        invariant past.arrivals == AfterBurst(old(past.arrivals), |past.received|, burst[..i])
      {
        WaitingCount(View());
        QueueCharacter(burst[i]);
        assert burst[..i + 1][..i] == burst[..i];
        i := i + 1;
      }
      assert burst[..i] == burst;
    }

    /** `vhid_getchar`, interrupted before, between and after its accesses to the ring. */
    method GetCharacter(bursts: (seq<Char>, seq<Char>, seq<Char>)) returns (result: nat, character: Char)
      requires Valid() && producer == Resting && consumer == Waiting
      modifies this, slots
      ensures Valid() && producer == Resting && consumer == Waiting
      ensures var read := |old(past.received)|;
        var first := AfterBurst(old(past.arrivals), read, bursts.0);
        result == (if old(past.received) == Admissions(first) then 0 else 1) &&
        past.arrivals == if result == 0 then first else AfterBurst(AfterBurst(first, read, bursts.1), read, bursts.2)
      ensures old(past.arrivals) <= past.arrivals && Admissions(old(past.arrivals)) <= Admissions(past.arrivals)
      ensures result == 0 ==> past.received == old(past.received)
      ensures result == 1 ==> past.received == old(past.received) + [character] <= Admissions(past.arrivals)
    {
      hide Inv, Admissions, AfterBurst;
      ghost var a0, read := past.arrivals, |past.received|;
      Interrupt(bursts.0);
      ghost var a1 := past.arrivals;
      BurstKeeps(a0, read, bursts.0);
      AllReceived(View());
      if tail == head {
        return 0, 0;
      }
      IsSized(View());
      StepKeeps(View(), Notice);
      consumer := Noticed;
      Interrupt(bursts.1);
      ghost var a2 := past.arrivals;
      BurstKeeps(a1, read, bursts.1);
      IsSized(View());
      StepKeeps(View(), Fetch);
      character := slots[tail % SIZE];
      consumer := Fetched(character);
      Interrupt(bursts.2);
      BurstKeeps(a2, read, bursts.2);
      IsSized(View());
      StepKeeps(View(), Release);
      tail := (tail + 1) % WRAP;
      past := past.(received := past.received + [character]);
      consumer := Waiting;
      result := 1;
      ReceivedInOrder(View());
    }
  }

  /** A burst that arrives while nothing is read: characters are admitted as long as fewer than
      SIZE wait, and turned away after that. */
  ghost function AfterBurst(arrivals: seq<(Char, bool)>, read: nat, burst: seq<Char>): seq<(Char, bool)>
    decreases |burst|
  {
    if burst == [] then arrivals
    else
      var n := |burst| - 1;
      var before := AfterBurst(arrivals, read, burst[..n]);
      before + [(burst[n], |Admissions(before)| < read + SIZE)]
  }

  /** What had arrived stays as it was, admitted or not; the whole burst is added. */
  lemma {:induction false} BurstKeeps(arrivals: seq<(Char, bool)>, read: nat, burst: seq<Char>)
    ensures var after := AfterBurst(arrivals, read, burst);
      arrivals <= after && Admissions(arrivals) <= Admissions(after) && Offered(after) == Offered(arrivals) + burst
    decreases |burst|
  {
    if burst != [] {
      var n := |burst| - 1;
      BurstKeeps(arrivals, read, burst[..n]);
      var before := AfterBurst(arrivals, read, burst[..n]);
      var admitted := |Admissions(before)| < read + SIZE;
      ArrivalNext(before, burst[n], admitted);
      var after := before + [(burst[n], admitted)];
      assert Offered(after) == Offered(before) + [burst[n]];
    }
  }

  /** Each character of a burst is admitted exactly if fewer than 256 wait when it arrives. */
  lemma {:induction false} AdmittedWhen(arrivals: seq<(Char, bool)>, read: nat, burst: seq<Char>, i: nat)
    requires i < |burst|
    ensures var after, k := AfterBurst(arrivals, read, burst), |arrivals| + i;
      |after| == |arrivals| + |burst| && (after[k].1 <==> |Admissions(after[..k])| < read + 256)
    decreases |burst|
  {
    var n := |burst| - 1;
    var before, after := AfterBurst(arrivals, read, burst[..n]), AfterBurst(arrivals, read, burst);
    hide Admissions;
    BurstLength(arrivals, read, burst[..n]);
    if i < n {
      AdmittedWhen(arrivals, read, burst[..n], i);
      assert after[..|arrivals| + i] == before[..|arrivals| + i];
    } else {
      assert after[..|arrivals| + i] == before;
    }
  }

  lemma {:induction false} BurstLength(arrivals: seq<(Char, bool)>, read: nat, burst: seq<Char>)
    ensures |AfterBurst(arrivals, read, burst)| == |arrivals| + |burst|
    decreases |burst|
  {
    if burst != [] {
      BurstLength(arrivals, read, burst[..|burst| - 1]);
    }
  }

  /** Between interrupts, the characters in the ring are those admitted and not read. */
  lemma WaitingCount(s: State)
    requires Inv(s) && s.producer.Resting?
    ensures Used(s.ring) == |Admissions(s.past.arrivals)| - |s.past.received|
  {
    hide Admissions, Losses, Slots;
    UsedExact(s);
  }

  lemma ReceivedInOrder(s: State)
    requires Inv(s)
    ensures s.past.received <= Admissions(s.past.arrivals)
  {
    hide Admissions, Losses, Slots, Counters;
  }

  lemma IsSized(s: State)
    requires Inv(s)
    ensures |s.ring.slots| == SIZE
  {
  }

  lemma AllReceived(s: State)
    requires Inv(s) && s.producer.Resting?
    ensures s.ring.head == s.ring.tail <==> s.past.received == Admissions(s.past.arrivals)
  {
    hide Admissions, Losses, Slots;
  }
}
