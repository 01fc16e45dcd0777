/** The split virtqueue between the input driver and a device (section 2.6 of VIRTIO 1.1). */
module VirtQueue {
  import opened Arithmetic

  type U16 = x: int | 0 <= x < 0x1_0000
  type U32 = x: int | 0 <= x < 0x1_0000_0000

  const WRAP := 0x1_0000

  // ----- the state -----

  type Byte = x: int | 0 <= x < 256

  /** The bytes of a buffer. */
  type Wire = bytes: seq<Byte> | |bytes| == 8 witness [0, 0, 0, 0, 0, 0, 0, 0]

  /** An element of the used ring. */
  datatype Elem = Elem(id: U32, len: U32)

  /** What driver and device share: the two rings and the event buffers. */
  datatype Rings = Rings(
    availIdx: U16, availRing: seq<U16>, usedIdx: U16, usedRing: seq<Elem>, buffers: seq<Wire>)

  /** The device: the next entry of the available ring it will look at, the descriptors it
      holds, and how many used elements it wrote but did not expose yet. */
  datatype Device = Device(seen: U16, held: set<nat>, unexposed: nat)

  /** Where the driver is in its event routine. */
  datatype Hand = Free | Seen | Taken(elem: Elem) | Copied(id: nat) | Stored(id: nat)

  datatype Driver = Driver(lastUsed: U16, hand: Hand)

  /** A buffer as the device handed it over. */
  datatype Completion = Completion(id: U32, len: U32, wire: Wire)

  /** Everything that happened, with indices that do not wrap; descriptors below `pool` are in play. */
  datatype History = History(
    pool: nat, offers: seq<nat>, fetched: nat, made: seq<Completion>, taken: nat, got: seq<Completion>)

  datatype State = State(rings: Rings, device: Device, driver: Driver, past: History)

  /** The atomic steps: five of the driver, four of the device. */
  datatype Step =
    | Poll
    | Take
    | Copy
    | Store
    | Offer
    | Fetch
    | Fill(id: nat, wire: Wire)
    | Complete(id: nat, len: U32)
    | Expose(count: nat)

  predicate OfDevice(step: Step) {
    step.Fetch? || step.Fill? || step.Complete? || step.Expose?
  }

  // ----- the steps -----

  /** A power of two, at most 256. */
  predicate QueueSize(n: int) {
    0 < n <= 256 && WRAP % n == 0
  }

  predicate Sized(s: State, n: nat) {
    QueueSize(n) && |s.rings.availRing| == |s.rings.usedRing| == |s.rings.buffers| == n
  }

  predicate Enabled(s: State, n: nat, step: Step) {
    match step
    case Poll => s.driver.hand.Free? && s.rings.usedIdx != s.driver.lastUsed
    case Take => s.driver.hand.Seen?
    case Copy => s.driver.hand.Taken? && s.driver.hand.elem.id < n
    case Store => s.driver.hand.Copied? && s.driver.hand.id < n
    case Offer => s.driver.hand.Stored?
    case Fetch => s.device.seen != s.rings.availIdx
    case Fill(id, _) => id in s.device.held && id < n
    case Complete(id, _) => id in s.device.held && id < n
    case Expose(count) => 0 < count <= s.device.unexposed
  }

  function Next(s: State, n: nat, step: Step): State
    requires Sized(s, n) && Enabled(s, n, step)
  {
    match step
    case Poll => s.(driver := s.driver.(hand := Seen))
    case Take => DoTake(s, n)
    case Copy => DoCopy(s, n)
    case Store => DoStore(s, n)
    case Offer => DoOffer(s, n)
    case Fetch => DoFetch(s, n)
    case Fill(id, wire) => s.(rings := s.rings.(buffers := s.rings.buffers[id := wire]))
    case Complete(id, len) => DoComplete(s, n, id, len)
    case Expose(count) => DoExpose(s, n, count)
  }

  /** The driver reads the used element at its own index, and moves the index on. */
  function DoTake(s: State, n: nat): State
    requires Sized(s, n)
  {
    s.(driver := Driver((s.driver.lastUsed + 1) % WRAP, Taken(s.rings.usedRing[s.driver.lastUsed % n])),
       past := s.past.(taken := s.past.taken + 1))
  }

  /** The driver copies the event out of the buffer. */
  function DoCopy(s: State, n: nat): State
    requires Sized(s, n) && Enabled(s, n, Copy)
  {
    var elem := s.driver.hand.elem;
    s.(driver := s.driver.(hand := Copied(elem.id)),
       past := s.past.(got := s.past.got + [Completion(elem.id, elem.len, s.rings.buffers[elem.id])]))
  }

  /** The driver writes the descriptor into the next slot of the available ring. */
  function DoStore(s: State, n: nat): State
    requires Sized(s, n) && Enabled(s, n, Store)
  {
    var id := s.driver.hand.id;
    s.(rings := s.rings.(availRing := s.rings.availRing[s.rings.availIdx % n := id]),
       driver := s.driver.(hand := Stored(id)))
  }

  /** The driver publishes that slot. */
  function DoOffer(s: State, n: nat): State
    requires Sized(s, n) && Enabled(s, n, Offer)
  {
    s.(rings := s.rings.(availIdx := (s.rings.availIdx + 1) % WRAP),
       driver := s.driver.(hand := Free),
       past := s.past.(offers := s.past.offers + [s.driver.hand.id]))
  }

  /** The device takes the next available descriptor. */
  function DoFetch(s: State, n: nat): State
    requires Sized(s, n)
  {
    s.(device := s.device.(seen := (s.device.seen + 1) % WRAP,
                           held := s.device.held + {s.rings.availRing[s.device.seen % n]}),
       past := s.past.(fetched := s.past.fetched + 1))
  }

  /** The device gives a descriptor back: it writes the next used element. */
  function DoComplete(s: State, n: nat, id: nat, len: U32): State
    requires Sized(s, n) && id < n
  {
    var slot := (s.rings.usedIdx + s.device.unexposed) % WRAP % n;
    s.(rings := s.rings.(usedRing := s.rings.usedRing[slot := Elem(id, len)]),
       device := s.device.(held := s.device.held - {id}, unexposed := s.device.unexposed + 1),
       past := s.past.(made := s.past.made + [Completion(id, len, s.rings.buffers[id])]))
  }

  /** The device exposes used elements to the driver. */
  function DoExpose(s: State, n: nat, count: nat): State
    requires count <= s.device.unexposed
  {
    s.(rings := s.rings.(usedIdx := (s.rings.usedIdx + count) % WRAP),
       device := s.device.(unexposed := s.device.unexposed - count))
  }

  // ----- the invariant -----

  ghost function InHand(hand: Hand): seq<nat> {
    match hand
    case Free => []
    case Seen => []
    case Taken(elem) => [elem.id]
    case Copied(id) => [id]
    case Stored(id) => [id]
  }

  ghost function Ids(completions: seq<Completion>): (ids: seq<nat>)
    ensures |ids| == |completions|
  {
    seq(|completions|, i requires 0 <= i < |completions| => completions[i].id)
  }

  ghost function Everyone(n: nat): (ids: set<nat>)
    ensures |ids| == n && forall i: nat :: i in ids <==> i < n
  {
    if n == 0 then {} else Everyone(n - 1) + {n - 1}
  }

  /** The counters in memory are the true ones modulo 2^16. */
  ghost predicate Counters(s: State) {
    s.past.fetched <= |s.past.offers| && s.past.taken + s.device.unexposed <= |s.past.made| &&
    s.rings.availIdx == |s.past.offers| % WRAP && s.device.seen == s.past.fetched % WRAP &&
    s.rings.usedIdx == (|s.past.made| - s.device.unexposed) % WRAP && s.driver.lastUsed == s.past.taken % WRAP &&
    (s.driver.hand.Seen? ==> s.past.taken + s.device.unexposed < |s.past.made|)
  }

  ghost function Offered(s: State): seq<nat>
    requires s.past.fetched <= |s.past.offers|
  {
    s.past.offers[s.past.fetched..]
  }

  ghost function Unread(s: State): seq<Completion>
    requires s.past.taken <= |s.past.made|
  {
    s.past.made[s.past.taken..]
  }

  /** Every descriptor in play is in exactly one place: available, held by the device, used and not
      read, or in the driver's hand. */
  ghost predicate Shares(s: State, n: nat) {
    s.past.fetched <= |s.past.offers| && s.past.taken <= |s.past.made| && s.past.pool <= n &&
    multiset(Offered(s)) + multiset(s.device.held) + multiset(Ids(Unread(s))) + multiset(InHand(s.driver.hand)) ==
    multiset(Everyone(s.past.pool))
  }

  /** The slots not read yet still hold what was written. */
  ghost predicate AvailSlots(s: State, n: nat) {
    |s.rings.availRing| == n > 0 &&
    forall i | s.past.fetched <= i < |s.past.offers| :: s.rings.availRing[i % n] == s.past.offers[i]
  }

  ghost predicate UsedSlots(s: State, n: nat) {
    |s.rings.usedRing| == n > 0 &&
    forall i | s.past.taken <= i < |s.past.made| ::
      s.rings.usedRing[i % n].id == s.past.made[i].id && s.rings.usedRing[i % n].len == s.past.made[i].len
  }

  /** The buffers not copied yet still hold the events, and the driver got the rest in order. */
  ghost predicate Copies(s: State, n: nat) {
    |s.rings.buffers| == n && s.past.taken <= |s.past.made| &&
    (forall i | s.past.taken <= i < |s.past.made| ::
      s.past.made[i].id < n && s.rings.buffers[s.past.made[i].id] == s.past.made[i].wire) &&
    match s.driver.hand
    case Taken(elem) =>
      s.past.taken > 0 && s.past.got == s.past.made[..s.past.taken - 1] && elem.id < n &&
      Completion(elem.id, elem.len, s.rings.buffers[elem.id]) == s.past.made[s.past.taken - 1]
    case _ => s.past.got == s.past.made[..s.past.taken]
  }

  /** The slot about to be published already holds the descriptor. */
  ghost predicate StoredSlot(s: State, n: nat) {
    s.driver.hand.Stored? ==>
      |s.rings.availRing| == n > 0 && s.rings.availRing[|s.past.offers| % n] == s.driver.hand.id
  }

  ghost predicate Inv(s: State, n: nat) {
    Sized(s, n) && Counters(s) && Shares(s, n) && AvailSlots(s, n) && UsedSlots(s, n) &&
    Copies(s, n) && StoredSlot(s, n)
  }

  // ----- arithmetic of wrapping rings -----

  /** Wrapping at 2^16 does not disturb a slot number, since the size divides 2^16. */
  lemma WrapSlot(x: nat, n: nat)
    requires QueueSize(n)
    ensures x % WRAP % n == x % n
  {
    WrapDivides(x, n);
  }

  lemma WrapDivides(x: nat, n: nat)
    requires 0 < n && WRAP % n == 0
    ensures x % WRAP % n == x % n
  {
    var k := WRAP / n;
    var q, r := x / WRAP, x % WRAP;
    assert x == q * WRAP + r;
    assert q * WRAP == (q * k) * n by { assert WRAP == k * n; }
    ModMultiple(r, q * k, n);
  }

  lemma ModMultiple(r: nat, q: nat, n: nat)
    requires n > 0
    ensures (q * n + r) % n == r % n
  {
    var d, m := r / n, r % n;
    assert r == d * n + m;
    assert (q + d) * n == q * n + d * n;
    ModUnique(q * n + r, q + d, m, n);
  }

  /** Positions less than a ring apart are in different slots. */
  lemma DifferentSlots(i: nat, j: nat, n: nat)
    requires i < j < i + n
    ensures i % n != j % n
  {
    var q, m := i / n, i % n;
    assert i == q * n + m && (q + 1) * n == q * n + n;
    if j % n == m {
      var d := j / n;
      assert j == d * n + m;
      if d <= q {
        MulMono(d, q, n);
      } else {
        MulMono(q + 1, d, n);
      }
    }
  }

  lemma WrapDistinct(x: nat, y: nat)
    requires x <= y < x + WRAP
    ensures x % WRAP == y % WRAP <==> x == y
  {
  }

  lemma WrapAdd(x: nat, y: nat)
    ensures (x % WRAP + y) % WRAP == (x + y) % WRAP
  {
  }

  lemma SlotAfter(x: nat, k: nat, n: nat)
    requires QueueSize(n)
    ensures (x % WRAP + k) % WRAP % n == (x + k) % n
  {
    hide QueueSize;
    WrapAdd(x, k);
    WrapSlot(x + k, n);
  }

  /** The slot after fewer than `n` occupied ones is none of theirs. */
  lemma SlotIsFree(lo: nat, end: nat, n: nat)
    requires lo <= end < lo + n
    ensures forall i | lo <= i < end :: i % n != end % n
  {
    forall i | lo <= i < end
      ensures i % n != end % n
    {
      DifferentSlots(i, end, n);
    }
  }

  // ----- counting descriptors -----

  /** There are never more descriptors anywhere than the ring has slots. */
  lemma Room(s: State, n: nat)
    requires Shares(s, n)
    ensures |Offered(s)| + |s.device.held| + |Unread(s)| + |InHand(s.driver.hand)| == s.past.pool <= n
  {
    assert |multiset(Everyone(s.past.pool))| == s.past.pool;
    assert |multiset(Ids(Unread(s)))| == |Unread(s)|;
  }

  /** In how many places a descriptor is: available, held by the device, used and unread, in hand. */
  ghost function Places(s: State, id: nat): nat
    requires s.past.fetched <= |s.past.offers| && s.past.taken <= |s.past.made|
  {
    multiset(Offered(s))[id] + multiset(s.device.held)[id] + multiset(Ids(Unread(s)))[id] +
    multiset(InHand(s.driver.hand))[id]
  }

  /** A descriptor is in one place only. */
  lemma OnePlace(s: State, n: nat, id: nat)
    requires Shares(s, n)
    ensures Places(s, id) == (if id < s.past.pool then 1 else 0) && s.past.pool <= n
  {
    assert multiset(Everyone(s.past.pool))[id] == if id < s.past.pool then 1 else 0;
  }

  lemma IdsSplit(a: seq<Completion>, b: seq<Completion>)
    ensures Ids(a + b) == Ids(a) + Ids(b)
  {
  }

  lemma HeadTail<T>(s: seq<T>, k: nat)
    requires k < |s|
    ensures s[k..] == [s[k]] + s[k + 1..]
  {
  }

  // ----- every step keeps the invariant -----

  lemma PollKeeps(s: State, n: nat)
    requires Inv(s, n) && Enabled(s, n, Poll)
    ensures Inv(Next(s, n, Poll), n)
  {
    hide Shares, AvailSlots, UsedSlots;
    assert s.past.taken + s.device.unexposed < |s.past.made| by {
      Room(s, n);
      WrapDistinct(s.past.taken, |s.past.made| - s.device.unexposed);
    }
    SameShares(s, Next(s, n, Poll), n);
  }

  lemma SameShares(s: State, t: State, n: nat)
    requires s.past.(got := t.past.got) == t.past && s.device.held == t.device.held
    requires InHand(s.driver.hand) == InHand(t.driver.hand)
    ensures Shares(s, n) ==> Shares(t, n)
    ensures s.rings.availRing == t.rings.availRing && AvailSlots(s, n) ==> AvailSlots(t, n)
    ensures s.rings.usedRing == t.rings.usedRing && UsedSlots(s, n) ==> UsedSlots(t, n)
  {
  }

  /** The element the driver takes is the oldest completion it has not read. */
  lemma TakesOldest(s: State, n: nat)
    requires Inv(s, n) && Enabled(s, n, Take)
    ensures s.past.taken < |s.past.made|
    ensures var c := s.past.made[s.past.taken];
      s.rings.usedRing[s.driver.lastUsed % n] == Elem(c.id, c.len) && c.id < n && s.rings.buffers[c.id] == c.wire
  {
    WrapSlot(s.past.taken, n);
  }

  /** Moving `x` from one place to the next. */
  lemma Moved(a: multiset<nat>, b: multiset<nat>, c: multiset<nat>, d: multiset<nat>, x: multiset<nat>)
    ensures (a + x) + b + c + d == a + (b + x) + c + d
    ensures a + (b + x) + c + d == a + b + (c + x) + d
    ensures a + b + (c + x) + d == a + b + c + (d + x)
    ensures a + b + c + (d + x) == (a + x) + b + c + d
  {
  }

  lemma Joined(xs: seq<nat>, x: nat)
    ensures multiset([x] + xs) == multiset(xs) + multiset([x]) == multiset(xs + [x])
  {
  }

  lemma TakeShares(s: State, t: State, n: nat)
    requires Shares(s, n) && s.past.taken < |s.past.made| && t.past == s.past.(taken := s.past.taken + 1)
    requires t.device.held == s.device.held && InHand(s.driver.hand) == []
    requires InHand(t.driver.hand) == [s.past.made[s.past.taken].id]
    ensures Shares(t, n)
  {
    var c := s.past.made[s.past.taken];
    HeadTail(s.past.made, s.past.taken);
    IdsSplit([c], Unread(t));
    assert Ids([c]) == [c.id];
    Joined(Ids(Unread(t)), c.id);
    Moved(multiset(Offered(s)), multiset(s.device.held), multiset(Ids(Unread(t))), multiset{}, multiset([c.id]));
  }

  lemma OfferShares(s: State, t: State, n: nat, id: nat)
    requires Shares(s, n) && t.past == s.past.(offers := s.past.offers + [id])
    requires t.device.held == s.device.held && InHand(s.driver.hand) == [id] && InHand(t.driver.hand) == []
    ensures Shares(t, n)
  {
    assert Offered(t) == Offered(s) + [id];
    Joined(Offered(s), id);
    Moved(multiset(Offered(s)), multiset(s.device.held), multiset(Ids(Unread(s))), multiset{}, multiset([id]));
  }

  lemma FetchShares(s: State, t: State, n: nat, id: nat)
    requires Shares(s, n) && s.past.fetched < |s.past.offers| && s.past.offers[s.past.fetched] == id
    requires t.past == s.past.(fetched := s.past.fetched + 1) && t.driver.hand == s.driver.hand
    requires id !in s.device.held && t.device.held == s.device.held + {id}
    ensures Shares(t, n)
  {
    HeadTail(s.past.offers, s.past.fetched);
    Joined(Offered(t), id);
    assert t.device.held - {id} == s.device.held;
    WithoutOne(t.device.held, id);
    Moved(multiset(Offered(t)), multiset(s.device.held), multiset(Ids(Unread(s))), multiset(InHand(s.driver.hand)),
          multiset([id]));
  }

  lemma TakeKeeps(s: State, n: nat)
    requires Inv(s, n) && Enabled(s, n, Take)
    ensures Inv(Next(s, n, Take), n)
  {
    hide AvailSlots;
    TakesOldest(s, n);
    var t := Next(s, n, Take);
    assert Counters(t) by { WrapAdd(s.past.taken, 1); }
    assert Shares(t, n) by {
      hide UsedSlots, Copies, Counters, Shares;
      TakeShares(s, t, n);
    }
    assert Copies(t, n) by { hide UsedSlots, Shares; }
    assert UsedSlots(t, n) by { hide Copies, Shares; }
    SameAvail(s, t, n);
  }

  lemma CopyKeeps(s: State, n: nat)
    requires Inv(s, n) && Enabled(s, n, Copy)
    ensures Inv(Next(s, n, Copy), n)
  {
    hide Shares, AvailSlots, UsedSlots;
    var t := Next(s, n, Copy);
    SameShares(s, t, n);
    assert t.past.got == s.past.made[..s.past.taken];
  }

  /** The slot the driver is about to write holds nothing the device has still to read. */
  lemma StoreSlotIsFree(s: State, n: nat)
    requires Inv(s, n) && (s.driver.hand.Copied? || s.driver.hand.Stored?)
    ensures s.rings.availIdx % n == |s.past.offers| % n
    ensures forall i | s.past.fetched <= i < |s.past.offers| :: i % n != s.rings.availIdx % n
  {
    hide AvailSlots, UsedSlots, Copies;
    Room(s, n);
    WrapSlot(|s.past.offers|, n);
    SlotIsFree(s.past.fetched, |s.past.offers|, n);
  }

  lemma StoreKeeps(s: State, n: nat)
    requires Inv(s, n) && Enabled(s, n, Store)
    ensures Inv(Next(s, n, Store), n)
  {
    hide UsedSlots, Shares, AvailSlots, Copies;
    var t := Next(s, n, Store);
    StoreSlotIsFree(s, n);
    StoredAvail(s, t, n);
    SameUsed(s, t, n);
    SameCopies(s, t, n);
    SameShares(s, t, n);
  }

  lemma StoredAvail(s: State, t: State, n: nat)
    requires AvailSlots(s, n) && t.past == s.past
    requires forall i | s.past.fetched <= i < |s.past.offers| :: i % n != |s.past.offers| % n
    requires s.driver.hand.Copied? && t.driver.hand == Stored(s.driver.hand.id) && s.driver.hand.id < WRAP
    requires t.rings.availRing == s.rings.availRing[|s.past.offers| % n := s.driver.hand.id]
    ensures AvailSlots(t, n) && StoredSlot(t, n)
  {
  }

  lemma SameCopies(s: State, t: State, n: nat)
    requires Copies(s, n) && s.past == t.past && s.rings.buffers == t.rings.buffers
    requires !s.driver.hand.Taken? && !t.driver.hand.Taken?
    ensures Copies(t, n)
  {
  }

  lemma OfferKeeps(s: State, n: nat)
    requires Inv(s, n) && Enabled(s, n, Offer)
    ensures Inv(Next(s, n, Offer), n)
  {
    hide UsedSlots, Shares;
    var t := Next(s, n, Offer);
    assert Counters(t) by { WrapAdd(|s.past.offers|, 1); }
    assert Shares(t, n) by { OfferShares(s, t, n, s.driver.hand.id); }
    assert UsedSlots(t, n) by { SameUsed(s, t, n); }
  }

  lemma SameUsed(s: State, t: State, n: nat)
    requires s.past.made == t.past.made && s.past.taken == t.past.taken && s.rings.usedRing == t.rings.usedRing
    ensures UsedSlots(s, n) ==> UsedSlots(t, n)
  {
  }

  lemma FetchesOldest(s: State, n: nat)
    requires Inv(s, n) && Enabled(s, n, Fetch)
    ensures s.past.fetched < |s.past.offers|
    ensures s.rings.availRing[s.device.seen % n] == s.past.offers[s.past.fetched] < n
    ensures s.past.offers[s.past.fetched] !in s.device.held
  {
    hide UsedSlots, Copies;
    WrapSlot(s.past.fetched, n);
    HeadTail(s.past.offers, s.past.fetched);
    OnePlace(s, n, s.past.offers[s.past.fetched]);
  }

  lemma FetchKeeps(s: State, n: nat)
    requires Inv(s, n) && Enabled(s, n, Fetch)
    ensures Inv(Next(s, n, Fetch), n)
  {
    hide UsedSlots, Shares;
    var t := Next(s, n, Fetch);
    FetchesOldest(s, n);
    assert Counters(t) by { WrapAdd(s.past.fetched, 1); }
    assert Shares(t, n) by { FetchShares(s, t, n, s.past.offers[s.past.fetched]); }
    SameUsed(s, t, n);
  }

  lemma FillKeeps(s: State, n: nat, id: nat, wire: Wire)
    requires Inv(s, n) && Enabled(s, n, Fill(id, wire))
    ensures Inv(Next(s, n, Fill(id, wire)), n)
  {
    hide Shares, AvailSlots, UsedSlots;
    var t := Next(s, n, Fill(id, wire));
    HeldIsNotRead(s, n, id);
    SameShares(s, t, n);
  }

  lemma HeldIsNotRead(s: State, n: nat, id: nat)
    requires Shares(s, n) && id in s.device.held
    ensures forall i | s.past.taken <= i < |s.past.made| :: s.past.made[i].id != id
    ensures id !in InHand(s.driver.hand)
  {
    OnePlace(s, n, id);
    var ids := Ids(Unread(s));
    assert id !in multiset(ids) && id !in multiset(InHand(s.driver.hand));
    forall i | s.past.taken <= i < |s.past.made|
      ensures s.past.made[i].id != id
    {
      assert ids[i - s.past.taken] in multiset(ids);
    }
  }

  /** The slot the device is about to write holds nothing the driver has still to read. */
  lemma CompleteSlotIsFree(s: State, n: nat, id: nat)
    requires Inv(s, n) && id in s.device.held
    ensures (s.rings.usedIdx + s.device.unexposed) % WRAP % n == |s.past.made| % n
    ensures forall i | s.past.taken <= i < |s.past.made| :: i % n != |s.past.made| % n
  {
    hide AvailSlots, UsedSlots, Copies, Shares, StoredSlot;
    RoomToComplete(s, n, id);
    SlotIsFree(s.past.taken, |s.past.made|, n);
    var visible := |s.past.made| - s.device.unexposed;
    SlotAfter(visible, s.device.unexposed, n);
    hide *;
    assert s.rings.usedIdx == visible % WRAP;
  }

  /** A descriptor that the device holds leaves less than `n` others. */
  lemma RoomToComplete(s: State, n: nat, id: nat)
    requires Shares(s, n) && id in s.device.held
    ensures |s.past.made| < s.past.taken + n
  {
    Room(s, n);
    assert |s.device.held| > 0;
  }

  lemma CompleteKeeps(s: State, n: nat, id: nat, len: U32)
    requires Inv(s, n) && Enabled(s, n, Complete(id, len))
    ensures Inv(Next(s, n, Complete(id, len)), n)
  {
    hide AvailSlots, Shares;
    var t := Next(s, n, Complete(id, len));
    CompleteSlotIsFree(s, n, id);
    CompleteUsed(s, t, n);
    assert Shares(t, n) by { CompleteShares(s, t, n, id); }
    SameAvail(s, t, n);
  }

  lemma CompleteUsed(s: State, t: State, n: nat)
    requires UsedSlots(s, n) && t.past.taken == s.past.taken && |s.past.made| < |t.past.made| == |s.past.made| + 1
    requires forall i | s.past.taken <= i < |s.past.made| ::
      i % n != |s.past.made| % n && t.past.made[i] == s.past.made[i]
    requires var c := t.past.made[|s.past.made|];
      t.rings.usedRing == s.rings.usedRing[|s.past.made| % n := Elem(c.id, c.len)]
    ensures UsedSlots(t, n)
  {
  }

  lemma CompleteShares(s: State, t: State, n: nat, id: nat)
    requires Shares(s, n) && id in s.device.held && t.device.held == s.device.held - {id}
    requires |t.past.made| > 0 && t.past == s.past.(made := s.past.made + [t.past.made[|t.past.made| - 1]])
    requires t.past.made[|t.past.made| - 1].id == id && t.driver.hand == s.driver.hand
    ensures Shares(t, n)
  {
    var c := t.past.made[|t.past.made| - 1];
    assert Unread(t) == Unread(s) + [c];
    IdsSplit(Unread(s), [c]);
    assert Ids([c]) == [id];
    WithoutOne(s.device.held, id);
  }

  lemma WithoutOne(held: set<nat>, id: nat)
    requires id in held
    ensures multiset(held) == multiset(held - {id}) + multiset([id])
  {
  }

  lemma SameAvail(s: State, t: State, n: nat)
    requires s.past.offers == t.past.offers && s.past.fetched == t.past.fetched
    requires s.rings.availRing == t.rings.availRing
    ensures AvailSlots(s, n) ==> AvailSlots(t, n)
  {
  }

  lemma ExposeKeeps(s: State, n: nat, count: nat)
    requires Inv(s, n) && Enabled(s, n, Expose(count))
    ensures Inv(Next(s, n, Expose(count)), n)
  {
    hide AvailSlots, UsedSlots, Shares;
    var t := Next(s, n, Expose(count));
    SameShares(s, t, n);
    WrapAdd(|s.past.made| - s.device.unexposed, count);
  }

  lemma StepKeeps(s: State, n: nat, step: Step)
    requires Inv(s, n) && Enabled(s, n, step)
    ensures Inv(Next(s, n, step), n)
  {
    hide Inv, Enabled, Next;
    match step
    case Poll => PollKeeps(s, n);
    case Take => TakeKeeps(s, n);
    case Copy => CopyKeeps(s, n);
    case Store => StoreKeeps(s, n);
    case Offer => OfferKeeps(s, n);
    case Fetch => FetchKeeps(s, n);
    case Fill(id, wire) => FillKeeps(s, n, id, wire);
    case Complete(id, len) => CompleteKeeps(s, n, id, len);
    case Expose(count) => ExposeKeeps(s, n, count);
  }

  // ----- whole runs -----

  /** `t` is reached from `s` by some interleaving of driver and device steps. */
  ghost predicate Leads(s: State, n: nat, steps: seq<Step>, t: State)
    decreases |steps|
  {
    if steps == [] then s == t
    else Sized(s, n) && Enabled(s, n, steps[0]) && Leads(Next(s, n, steps[0]), n, steps[1..], t)
  }

  ghost function UpTo(n: nat): (ids: seq<nat>)
    ensures |ids| == n && forall i | 0 <= i < n :: ids[i] == i
  {
    if n == 0 then [] else UpTo(n - 1) + [n - 1]
  }

  /** All buffers offered, nothing used: how the driver starts. */
  ghost predicate Started(s: State, n: nat) {
    Sized(s, n) && s.past == History(n, UpTo(n), 0, [], 0, []) && s.rings.availIdx == n && s.rings.usedIdx == 0 &&
    (forall i | 0 <= i < n :: s.rings.availRing[i] == i) && s.device == Device(0, {}, 0) && s.driver == Driver(0, Free)
  }

  /** The queue has its place in memory, and no buffer was offered: the device is never started. */
  ghost predicate LaidOut(s: State, n: nat) {
    Sized(s, n) && s.past == History(0, [], 0, [], 0, []) && s.rings.availIdx == 0 && s.rings.usedIdx == 0 &&
    s.device == Device(0, {}, 0) && s.driver == Driver(0, Free)
  }

  lemma LaidOutInv(s: State, n: nat)
    requires LaidOut(s, n)
    ensures Inv(s, n)
  {
    assert Offered(s) == [] && Unread(s) == [] && Ids(Unread(s)) == [];
  }

  lemma EveryoneNext(n: nat)
    requires n > 0
    ensures Everyone(n) == Everyone(n - 1) + {n - 1} && UpTo(n) == UpTo(n - 1) + [n - 1]
  {
  }

  lemma {:induction false} EveryoneListed(n: nat)
    ensures multiset(UpTo(n)) == multiset(Everyone(n))
  {
    if n > 0 {
      EveryoneListed(n - 1);
      EveryoneNext(n);
      hide Everyone, UpTo;
      ListedNext(Everyone(n - 1), UpTo(n - 1), n - 1);
    }
  }

  lemma ListedNext(all: set<nat>, ids: seq<nat>, id: nat)
    requires multiset(ids) == multiset(all) && id !in all
    ensures multiset(ids + [id]) == multiset(all + {id})
  {
    assert (all + {id}) - {id} == all;
    WithoutOne(all + {id}, id);
    Joined(ids, id);
  }

  lemma StartedInv(s: State, n: nat)
    requires Started(s, n)
    ensures Inv(s, n)
  {
    assert Shares(s, n) by {
      EveryoneListed(n);
      assert Offered(s) == UpTo(n) && Unread(s) == [];
    }
    assert AvailSlots(s, n) by {
      forall i | 0 <= i < n
        ensures s.rings.availRing[i % n] == s.past.offers[i]
      {
        ModUnique(i, 0, i, n);
      }
    }
    hide Shares, AvailSlots;
  }

  lemma {:induction false} LeadsKeeps(s: State, n: nat, steps: seq<Step>, t: State)
    requires Inv(s, n) && Leads(s, n, steps, t)
    ensures Inv(t, n) && s.past.made <= t.past.made && s.past.got <= t.past.got && t.past.pool == s.past.pool
    decreases |steps|
  {
    hide Inv, Enabled, Next;
    if steps != [] {
      StepKeeps(s, n, steps[0]);
      StepExtends(s, n, steps[0]);
      LeadsKeeps(Next(s, n, steps[0]), n, steps[1..], t);
    }
  }

  lemma StepExtends(s: State, n: nat, step: Step)
    requires Sized(s, n) && Enabled(s, n, step)
    ensures s.past.made <= Next(s, n, step).past.made && s.past.got <= Next(s, n, step).past.got
    ensures Next(s, n, step).past.pool == s.past.pool
  {
  }

  /** In every interleaving: the driver received the oldest completions, each once, in order and
      with the contents the device wrote; every descriptor is in exactly one place; and a
      descriptor read from the used ring is never out of range. */
  lemma RunLaw(s: State, n: nat, steps: seq<Step>, t: State)
    requires Started(s, n) && Leads(s, n, steps, t)
    ensures t.past.got <= t.past.made && |t.past.made| - |t.past.got| <= n
    ensures t.past.fetched <= |t.past.offers| && t.past.taken <= |t.past.made|
    ensures forall id: nat | id < n :: Places(t, id) == 1
    ensures t.driver.hand.Taken? ==> t.driver.hand.elem.id < n
  {
    StartedInv(s, n);
    LeadsKeeps(s, n, steps, t);
    Room(t, n);
    forall id: nat | id < n
      ensures Places(t, id) == 1
    {
      OnePlace(t, n, id);
    }
  }

  /** When the indices agree the driver has received everything that was exposed. */
  lemma NothingLost(s: State, n: nat)
    requires Inv(s, n) && s.driver.hand.Free?
    ensures s.rings.usedIdx == s.driver.lastUsed <==> |s.past.got| + s.device.unexposed == |s.past.made|
    ensures s.device.seen == s.rings.availIdx <==> s.past.fetched == |s.past.offers|
  {
    Room(s, n);
    WrapDistinct(s.past.taken, |s.past.made| - s.device.unexposed);
    WrapDistinct(s.past.fetched, |s.past.offers|);
  }

  /** Slot numbers survive the 16-bit wrap exactly for the sizes that divide 2^16. */
  lemma SizeMatters(n: nat)
    requires 0 < n
    ensures WRAP % n == 0 <==> forall x: nat :: Slot(x % WRAP, n) == Slot(x, n)
  {
    if WRAP % n == 0 {
      forall x: nat
        ensures Slot(x % WRAP, n) == Slot(x, n)
      {
        WrapDivides(x, n);
      }
    } else {
      ModUnique(0, 0, 0, n);
      assert Slot(WRAP % WRAP, n) == 0 && Slot(WRAP, n) != 0;
    }
  }

  ghost function Slot(x: nat, n: nat): nat
    requires n > 0
  {
    x % n
  }

  // ----- choosing the size and laying out the queue -----

  function Align4K(x: nat): nat { (x + 4095) / 4096 * 4096 }

  const QUEUE_STORAGE := 12288

  /** `vq_setup_v1`: halves the size until the device accepts it, and places the three parts. */
  method ChooseLayout(queueMax: U32) returns (ok: bool, size: nat, avail: nat, used: nat)
    ensures ok <==> queueMax > 0
    ensures ok ==> QueueSize(size) && size <= queueMax && (size == 256 || queueMax < 2 * size)
    ensures ok ==>
      16 * size == avail && avail + 4 + 2 * size <= used && used % 4096 == 0 && used + 4 + 8 * size <= QUEUE_STORAGE
    ensures ok ==> used == Align4K(16 * size + 2 * (3 + size)) && used < 16 * size + 4 + 2 * size + 4096
  {
    if queueMax == 0 {
      return false, 0, 0, 0;
    }
    size := 256;
    while size > queueMax
      invariant size in [1, 2, 4, 8, 16, 32, 64, 128, 256]
      invariant size == 256 || queueMax < 2 * size
    {
      size := size / 2;
    }
    assert QueueSize(size);
    ok, avail := true, size * 16;
    used := Align4K(size * 16 + 2 * 2 + size * 2);
  }
}
