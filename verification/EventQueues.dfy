/** One event queue of the input driver, as it lies in memory. */
module EventQueues {
  import opened Arithmetic
  import opened VirtQueue

  /** sizeof(struct virtio_input_wire_event). */
  const EVENT_BYTES := 8

  datatype Event = Event(kind: U16, code: U16, value: U32)

  const NO_EVENT := Event(0, 0, 0)

  function Pair(lo: Byte, hi: Byte): U16 {
    lo as int + 0x100 * (hi as int)
  }

  /** The event in a buffer: its three fields in little-endian order. */
  function Decoded(b: Wire): Event {
    Event(Pair(b[0], b[1]), Pair(b[2], b[3]), Pair(b[4], b[5]) as int + 0x1_0000 * (Pair(b[6], b[7]) as int))
  }

  function Encoded(e: Event): Wire {
    var lo: U16, hi: U16 := e.value % 0x1_0000, e.value / 0x1_0000;
    [e.kind % 0x100, e.kind / 0x100, e.code % 0x100, e.code / 0x100,
     lo % 0x100, lo / 0x100, hi % 0x100, hi / 0x100]
  }

  /** Every event has exactly one buffer content. */
  lemma DecodedBack(e: Event, b: Wire)
    ensures Decoded(Encoded(e)) == e && Encoded(Decoded(b)) == b
    ensures Decoded(b).kind == b[0] as int + 0x100 * (b[1] as int)
    ensures Decoded(b).code == b[2] as int + 0x100 * (b[3] as int)
    ensures Decoded(b).value ==
      b[4] as int + 0x100 * (b[5] as int) + 0x1_0000 * (b[6] as int) + 0x100_0000 * (b[7] as int)
  {
    var d := Decoded(b);
    PairBack(b[0], b[1]);
    PairBack(b[2], b[3]);
    PairBack(b[4], b[5]);
    PairBack(b[6], b[7]);
    ModUnique(d.value, Pair(b[6], b[7]), Pair(b[4], b[5]), 0x1_0000);
    hide Pair;
    assert Encoded(d) == [b[0], b[1], b[2], b[3], b[4], b[5], b[6], b[7]];
    EncodedBack(e);
  }

  lemma PairBack(lo: Byte, hi: Byte)
    ensures Pair(lo, hi) % 0x100 == lo && Pair(lo, hi) / 0x100 == hi
  {
  }

  lemma EncodedBack(e: Event)
    ensures Decoded(Encoded(e)) == e
  {
    assert e.value == e.value % 0x1_0000 + 0x1_0000 * (e.value / 0x1_0000);
  }

  /** The first `n` bytes determine the event. */
  ghost predicate Suffices(n: nat)
    requires n <= 8
  {
    forall b: Wire, c: Wire :: b[..n] == c[..n] ==> Decoded(b) == Decoded(c)
  }

  /** A completion is long enough exactly if its bytes determine the event. */
  lemma EventBytes(n: nat)
    requires n <= 8
    ensures Suffices(n) <==> n >= EVENT_BYTES
  {
    if n < 8 {
      var b: Wire, c: Wire := [0, 0, 0, 0, 0, 0, 0, 0], [0, 0, 0, 0, 0, 0, 0, 1];
      assert b[..n] == c[..n] && Decoded(b) != Decoded(c);
    } else {
      assert forall b: Wire :: b[..8] == b;
    }
  }

  /** What a step of the device does; a step that is not enabled does nothing. */
  function DeviceMove(s: State, n: nat, step: Step): State
    requires Sized(s, n)
  {
    if OfDevice(step) && Enabled(s, n, step) then Next(s, n, step) else s
  }

  lemma InvSized(s: State, n: nat)
    requires Inv(s, n)
    ensures Sized(s, n)
  {
  }

  /** The driver still knows the element it took. */
  ghost predicate Holds(hand: Hand, elem: Elem) {
    match hand
    case Taken(e) => e == elem
    case Copied(id) => id == elem.id
    case Stored(id) => id == elem.id
    case _ => true
  }

  class EventQueue {
    /** 0 until the queue is set up. */
    var size: nat
    var availIdx: U16
    const availRing: array<U16>
    var usedIdx: U16
    const usedRing: array<Elem>
    const buffers: array<Wire>
    // the driver
    var lastUsed: U16
    // the device
    var seen: U16
    var held: set<nat>
    var unexposed: nat

    ghost var hand: Hand
    ghost var past: History

    ghost function Footprint(): set<object> {
      {this, availRing, usedRing, buffers}
    }

    ghost predicate Shape()
      reads this
    {
      availRing.Length == usedRing.Length == buffers.Length == 256 && size <= 256
    }

    ghost function View(): State
      requires Shape()
      reads this, availRing, usedRing, buffers
    {
      State(Rings(availIdx, availRing[..size], usedIdx, usedRing[..size], buffers[..size]),
        Device(seen, held, unexposed), Driver(lastUsed, hand), past)
    }

    ghost predicate Valid()
      reads this, availRing, usedRing, buffers
      ensures Valid() ==> Shape()
    {
      Shape() && (size > 0 ==> Inv(View(), size))
    }

    constructor ()
      ensures Shape() && size == 0 && fresh(Footprint())
    {
      size, availIdx, usedIdx, lastUsed, seen, held, unexposed := 0, 0, 0, 0, 0, {}, 0;
      hand, past := Free, History(0, [], 0, [], 0, []);
      availRing := new U16[256];
      usedRing := new Elem[256];
      buffers := new Wire[256](_ => [0, 0, 0, 0, 0, 0, 0, 0]);
    }

    /** The part of `vhid_init` that concerns this queue, before the device is started: the device
        refuses a queue by offering no slots for it. */
    method SetUp(queueMax: U32, statusMax: U32) returns (ok: bool)
      requires Shape()
      modifies this, availRing, usedRing
      ensures Shape() && (ok <==> queueMax > 0 && statusMax > 0)
      ensures queueMax == 0 ==> size == old(size)
      ensures queueMax > 0 ==> QueueSize(size) && size <= queueMax && (size == 256 || queueMax < 2 * size)
      ensures ok ==> Started(View(), size)
      ensures queueMax > 0 && !ok ==> LaidOut(View(), size)
    {
      ok := LayOut(queueMax);
      if !ok || statusMax == 0 {
        return false;
      }
      OfferAll();
    }

    /** `vq_setup_v1`. */
    method LayOut(queueMax: U32) returns (ok: bool)
      requires Shape()
      modifies this, availRing, usedRing
      ensures Shape() && (ok <==> queueMax > 0)
      ensures ok ==> QueueSize(size) && size <= queueMax && (size == 256 || queueMax < 2 * size)
      ensures ok ==> LaidOut(View(), size)
      ensures !ok ==> size == old(size)
    {
      var chosen, avail, used;
      ok, chosen, avail, used := ChooseLayout(queueMax);
      if !ok {
        return;
      }
      size, availIdx, usedIdx, lastUsed, seen, held, unexposed := chosen, 0, 0, 0, 0, {}, 0;
      hand, past := Free, History(0, [], 0, [], 0, []);
      var i := 0;
      while i < 256
        invariant 0 <= i <= 256 && size == chosen
        invariant availIdx == usedIdx == lastUsed == seen == 0 && held == {} && unexposed == 0
        invariant hand == Free && past == History(0, [], 0, [], 0, [])
      {
        availRing[i], usedRing[i] := 0, Elem(0, 0);
        i := i + 1;
      }
    }

    /** `input_setup_event_queue`. */
    method OfferAll()
      requires Shape() && size > 0 && LaidOut(View(), size)
      modifies this`availIdx, this`past, availRing
      ensures Shape() && Started(View(), size)
    {
      hide UpTo;
      past := History(size, UpTo(size), 0, [], 0, []);
      var i := 0;
      while i < size
        invariant 0 <= i <= size
        invariant forall j | 0 <= j < i :: availRing[j] == j
        invariant past == History(size, UpTo(size), 0, [], 0, [])
      {
        availRing[i] := i;
        i := i + 1;
      }
      availIdx := size;
      OfferedStarts(old(View()), View(), size);
    }

    // ----- the steps of the driver -----

    /** Compares the two indices. */
    method PollUsed() returns (pending: bool)
      requires Valid() && size > 0 && hand.Free?
      modifies this`hand
      ensures Valid() && pending == (usedIdx != lastUsed)
      ensures pending ==> Enabled(old(View()), size, Poll) && View() == Next(old(View()), size, Poll)
      ensures !pending ==> View() == old(View())
    {
      pending := usedIdx != lastUsed;
      if pending {
        PollKeeps(View(), size);
        hand := Seen;
      }
    }

    method TakeUsed() returns (elem: Elem)
      requires Valid() && size > 0 && hand.Seen?
      modifies this`hand, this`lastUsed, this`past
      ensures Valid() && View() == Next(old(View()), size, Take)
      ensures hand == Taken(elem)
    {
      hide Inv;
      InvSized(View(), size);
      TakeKeeps(View(), size);
      elem := usedRing[lastUsed % size];
      hand, past := Taken(elem), past.(taken := past.taken + 1);
      lastUsed := (lastUsed + 1) % WRAP;
    }

    method CopyEvent(elem: Elem) returns (event: Event)
      requires Valid() && size > 0 && hand == Taken(elem) && elem.id < size
      modifies this`hand, this`past
      ensures Valid() && View() == Next(old(View()), size, Copy)
      ensures past.got == old(past.got) + [Completion(elem.id, elem.len, old(View()).rings.buffers[elem.id])]
      ensures elem.len >= EVENT_BYTES ==> event == Decoded(past.got[|past.got| - 1].wire)
    {
      hide Inv;
      InvSized(View(), size);
      CopyKeeps(View(), size);
      event := if elem.len >= EVENT_BYTES then Decoded(buffers[elem.id]) else NO_EVENT;
      past := past.(got := past.got + [Completion(elem.id, elem.len, buffers[elem.id])]);
      hand := Copied(elem.id);
    }

    method StoreDescriptor(id: nat)
      requires Valid() && size > 0 && hand == Copied(id) && id < size
      modifies this`hand, availRing
      ensures Valid() && View() == Next(old(View()), size, Store)
    {
      hide Inv;
      InvSized(View(), size);
      StoreKeeps(View(), size);
      availRing[availIdx % size] := id;
      hand := Stored(id);
    }

    method OfferDescriptor()
      requires Valid() && size > 0 && hand.Stored?
      modifies this`hand, this`availIdx, this`past
      ensures Valid() && View() == Next(old(View()), size, Offer)
    {
      hide Inv;
      InvSized(View(), size);
      OfferKeeps(View(), size);
      past := past.(offers := past.offers + [hand.id]);
      hand := Free;
      availIdx := (availIdx + 1) % WRAP;
    }

    /** One atomic step of the driver; `last` is the element it took before. */
    method DriverStep(step: Step, last: Elem) returns (elem: Elem, event: Event)
      requires Valid() && size > 0 && !OfDevice(step) && Sized(View(), size) && Enabled(View(), size, step)
      requires Holds(hand, last)
      modifies Footprint()
      ensures Valid() && size == old(size) && View() == Next(old(View()), size, step)
      ensures Holds(hand, elem) && (!step.Take? ==> elem == last)
      ensures step.Copy? ==> elem.id < |old(View()).rings.buffers|
      ensures step.Copy? && elem.len >= EVENT_BYTES ==> event == Decoded(old(View()).rings.buffers[elem.id])
    {
      hide Inv;
      elem, event := last, NO_EVENT;
      match step
      case Poll => var _ := PollUsed();
      case Take => elem := TakeUsed();
      case Copy => event := CopyEvent(last);
      case Store => StoreDescriptor(last.id);
      case Offer => OfferDescriptor();
    }

    // ----- the steps of the device -----

    method DeviceStep(step: Step)
      requires Valid() && size > 0
      modifies Footprint()
      ensures Valid() && size == old(size) && View() == DeviceMove(old(View()), size, step)
    {
      match step
      case Fetch =>
        if seen != availIdx { DeviceFetch(); }
      case Fill(id, wire) =>
        if id in held && id < size { DeviceFill(id, wire); }
      case Complete(id, len) =>
        if id in held && id < size { DeviceComplete(id, len); }
      case Expose(count) =>
        if 0 < count <= unexposed { DeviceExpose(count); }
      case _ =>
    }

    method DeviceFetch()
      requires Valid() && size > 0 && Enabled(View(), size, Fetch)
      modifies this`held, this`seen, this`past
      ensures Valid() && View() == Next(old(View()), size, Fetch)
    {
      hide Inv;
      InvSized(View(), size);
      FetchKeeps(View(), size);
      held := held + {availRing[seen % size]};
      seen := (seen + 1) % WRAP;
      past := past.(fetched := past.fetched + 1);
    }

    method DeviceFill(id: nat, wire: Wire)
      requires Valid() && size > 0 && Enabled(View(), size, Fill(id, wire))
      modifies buffers
      ensures Valid() && View() == Next(old(View()), size, Fill(id, wire))
    {
      hide Inv;
      InvSized(View(), size);
      FillKeeps(View(), size, id, wire);
      buffers[id] := wire;
    }

    method DeviceComplete(id: nat, len: U32)
      requires Valid() && size > 0 && Enabled(View(), size, Complete(id, len))
      modifies this`held, this`unexposed, this`past, usedRing
      ensures Valid() && View() == Next(old(View()), size, Complete(id, len))
    {
      hide Inv;
      InvSized(View(), size);
      CompleteKeeps(View(), size, id, len);
      usedRing[(usedIdx + unexposed) % WRAP % size] := Elem(id, len);
      held, unexposed := held - {id}, unexposed + 1;
      past := past.(made := past.made + [Completion(id, len, buffers[id])]);
    }

    method DeviceExpose(count: nat)
      requires Valid() && size > 0 && Enabled(View(), size, Expose(count))
      modifies this`usedIdx, this`unexposed
      ensures Valid() && View() == Next(old(View()), size, Expose(count))
    {
      hide Inv;
      InvSized(View(), size);
      ExposeKeeps(View(), size, count);
      usedIdx, unexposed := (usedIdx + count) % WRAP, unexposed - count;
    }
  }

  lemma OfferedStarts(s: State, t: State, n: nat)
    requires LaidOut(s, n) && |t.rings.availRing| == n && forall j | 0 <= j < n :: t.rings.availRing[j] == j
    requires t == s.(rings := s.rings.(availRing := t.rings.availRing, availIdx := n), past := t.past)
    requires t.past == History(n, UpTo(n), 0, [], 0, [])
    ensures Started(t, n)
  {
  }

  /** The protocol state of a queue, field by field. */
  lemma ViewMeans(q: EventQueue)
    requires q.Shape()
    ensures q.View().rings.availIdx == q.availIdx && q.View().rings.usedIdx == q.usedIdx
    ensures |q.View().rings.availRing| == |q.View().rings.usedRing| == |q.View().rings.buffers| == q.size
    ensures forall i | 0 <= i < q.size ::
      q.View().rings.availRing[i] == q.availRing[i] && q.View().rings.usedRing[i] == q.usedRing[i] &&
      q.View().rings.buffers[i] == q.buffers[i]
    ensures q.View().driver.lastUsed == q.lastUsed && q.View().past == q.past
  {
  }
}
