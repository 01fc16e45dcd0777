/** The input driver over all its devices: `vhid_get_event` and `vhid_irq_handle`. */
module InputDriving {
  import opened Arithmetic
  import opened EventQueues
  import opened VirtQueue

  /** What the devices do between two steps of the driver. */
  type Batch = seq<(nat, Step)>

  // ----- measuring what is still to come -----

  /** Completions made and not yet taken, over all queues. */
  ghost function Backlog(views: seq<State>): nat {
    if views == [] then 0 else Owed(views[0]) + Backlog(views[1..])
  }

  ghost function Owed(s: State): nat {
    if s.past.taken <= |s.past.made| then |s.past.made| - s.past.taken else 0
  }

  lemma {:induction false} BacklogUpdate(views: seq<State>, i: nat, t: State)
    requires i < |views|
    ensures Backlog(views[i := t]) == Backlog(views) - Owed(views[i]) + Owed(t)
  {
    if i == 0 {
      assert views[i := t][1..] == views[1..];
    } else {
      BacklogUpdate(views[1..], i - 1, t);
      assert views[i := t][1..] == views[1..][i - 1 := t];
    }
  }

  /** How many completions a batch, or a script of batches, can still bring. */
  ghost function Promised(batch: Batch): nat {
    if batch == [] then 0 else (if batch[0].1.Complete? then 1 else 0) + Promised(batch[1..])
  }

  ghost function Scripted(script: seq<Batch>): nat {
    if script == [] then 0 else Promised(script[0]) + Scripted(script[1..])
  }

  // ----- how a queue may have moved on -----

  ghost function Exposed(s: State): int {
    |s.past.made| - s.device.unexposed
  }

  /** There is an exposed completion the driver has not taken. */
  ghost predicate Pending(s: State) {
    s.past.taken < Exposed(s)
  }

  /** From `s` to `t` the driver took `k` completions; the device lost nothing. */
  ghost predicate Advanced(s: State, t: State, k: nat) {
    s.past.made <= t.past.made && t.past.taken == s.past.taken + k && Exposed(s) <= Exposed(t)
  }

  lemma DeviceMoveAdvances(s: State, n: nat, step: Step)
    requires Inv(s, n)
    ensures Sized(s, n) && Inv(DeviceMove(s, n, step), n)
    ensures OnlyDevice(s, DeviceMove(s, n, step))
    ensures Owed(DeviceMove(s, n, step)) <= Owed(s) + if step.Complete? then 1 else 0
  {
    if OfDevice(step) && Enabled(s, n, step) {
      StepKeeps(s, n, step);
    }
  }

  ghost predicate AllAdvanced(views: seq<State>, views': seq<State>) {
    |views| == |views'| &&
    forall i | 0 <= i < |views| :: OnlyDevice(views[i], views'[i])
  }

  ghost predicate OnlyDevice(s: State, t: State) {
    Advanced(s, t, 0) && t.driver == s.driver && t.past.got == s.past.got
  }

  /** The driver worked on queue `i` only, and took `k` completions there. */
  ghost predicate AdvancedBut(views: seq<State>, views': seq<State>, i: nat, k: nat) {
    i < |views| == |views'| && Advanced(views[i], views'[i], k) &&
    forall j | 0 <= j < |views| && j != i :: OnlyDevice(views[j], views'[j])
  }

  /** No queue forgot a completion, an exposed one included, or one that the driver got. */
  ghost predicate AllGrown(views: seq<State>, views': seq<State>) {
    |views| == |views'| && forall i | 0 <= i < |views| :: Grown(views[i], views'[i])
  }

  ghost predicate Grown(s: State, t: State) {
    s.past.made <= t.past.made && s.past.got <= t.past.got && Exposed(s) <= Exposed(t)
  }

  lemma NoneGrown(views: seq<State>)
    ensures AllGrown(views, views)
  {
  }

  lemma GrownTwice(views: seq<State>, mid: seq<State>, after: seq<State>)
    requires AllGrown(views, mid) && AllGrown(mid, after)
    ensures AllGrown(views, after)
  {
    hide Exposed;
    forall i | 0 <= i < |views|
      ensures Grown(views[i], after[i])
    {
      assert Grown(views[i], mid[i]) && Grown(mid[i], after[i]);
    }
  }

  lemma DevicesGrow(views: seq<State>, after: seq<State>)
    requires AllAdvanced(views, after)
    ensures AllGrown(views, after)
  {
    hide Exposed;
  }

  lemma ServedGrows(views: seq<State>, after: seq<State>, i: nat, valid: bool, event: Event)
    requires AdvancedBut(views, after, i, 1) && Received(views[i], after[i], valid, event)
    ensures AllGrown(views, after)
  {
    hide Exposed;
  }

  ghost predicate Stepped(s: State, n: nat, step: Step, t: State) {
    Sized(s, n) && Enabled(s, n, step) && t == Next(s, n, step)
  }

  lemma DriverStepAdvances(views: seq<State>, mid: seq<State>, i: nat, k: nat, n: nat, step: Step, t: State)
    requires AdvancedBut(views, mid, i, k) && !OfDevice(step) && Stepped(mid[i], n, step, t)
    requires step.Take? ==> mid[i].past.taken < |mid[i].past.made|
    ensures AdvancedBut(views, mid[i := t], i, k + if step.Take? then 1 else 0)
    ensures Backlog(mid[i := t]) == Backlog(mid) - if step.Take? then 1 else 0
  {
    BacklogUpdate(mid, i, t);
  }

  lemma DevicesAdvance(views: seq<State>, mid: seq<State>, after: seq<State>, i: nat, k: nat)
    requires AdvancedBut(views, mid, i, k) && AllAdvanced(mid, after)
    ensures AdvancedBut(views, after, i, k)
    ensures i < |mid| == |after| && after[i].driver == mid[i].driver && after[i].past.got == mid[i].past.got
  {
  }

  lemma NobodyMoved(states: seq<State>)
    ensures AllAdvanced(states, states)
  {
  }

  lemma AllAdvancedTwice(views: seq<State>, mid: seq<State>, after: seq<State>)
    requires AllAdvanced(views, mid) && AllAdvanced(mid, after)
    ensures AllAdvanced(views, after)
  {
  }

  /** A step of the device at queue `i`, seen from outside. */
  lemma DeviceMoved(views: seq<State>, i: nat, n: nat, step: Step, t: State)
    requires i < |views| && Inv(views[i], n) && Sized(views[i], n) && t == DeviceMove(views[i], n, step)
    ensures AllAdvanced(views, views[i := t]) && Inv(t, n)
    ensures Backlog(views[i := t]) <= Backlog(views) + if step.Complete? then 1 else 0
  {
    hide Inv, DeviceMove;
    DeviceMoveAdvances(views[i], n, step);
    BacklogUpdate(views, i, t);
  }

  // ----- whose turn it is -----

  /** How many devices the cursor passes before it reaches `i`. */
  function Offset(next: nat, i: nat, count: nat): nat
    requires next < count && i < count
  {
    if i >= next then i - next else i + count - next
  }

  lemma CursorAt(next: nat, offset: nat, count: nat)
    requires next < count && offset < count
    ensures (next + offset) % count < count && Offset(next, (next + offset) % count, count) == offset
  {
    var x := next + offset;
    if x < count {
      ModUnique(x, 0, x, count);
    } else {
      ModUnique(x, 1, x - count, count);
    }
  }

  lemma OffsetUnique(next: nat, i: nat, count: nat)
    requires next < count && i < count
    ensures (next + Offset(next, i, count)) % count == i
  {
    CursorAt(next, Offset(next, i, count), count);
  }

  /** Device `d` stays pending while others are served: device `served[k]` from cursor `cursors[k]`. */
  ghost predicate Bypasses(cursors: seq<nat>, served: seq<nat>, d: nat, count: nat) {
    |cursors| == |served| + 1 && d < count &&
    (forall k | 0 <= k < |cursors| :: cursors[k] < count) &&
    forall k | 0 <= k < |served| ::
      served[k] < count && served[k] != d && cursors[k + 1] == (served[k] + 1) % count &&
      Offset(cursors[k], served[k], count) <= Offset(cursors[k], d, count)
  }

  /** A pending device is passed over at most `count - 1` times. */
  lemma {:induction false} BypassedAtMost(cursors: seq<nat>, served: seq<nat>, d: nat, count: nat)
    requires Bypasses(cursors, served, d, count)
    ensures |served| <= Offset(cursors[0], d, count) <= count - 1
    decreases |served|
  {
    if served != [] {
      var i := served[0];
      if i + 1 < count {
        ModUnique(i + 1, 0, i + 1, count);
      } else {
        ModUnique(i + 1, 1, 0, count);
      }
      BypassedAtMost(cursors[1..], served[1..], d, count);
    }
  }

  // ----- what reaches the keyboard code -----

  /** The events of the completions long enough to hold one. */
  ghost function WellFormed(completions: seq<Completion>): seq<Event> {
    if completions == [] then []
    else
      var init, last := completions[..|completions| - 1], completions[|completions| - 1];
      WellFormed(init) + if last.len >= EVENT_BYTES then [Decoded(last.wire)] else []
  }

  /** The events of one device. */
  ghost function From(keys: seq<(nat, Event)>, i: nat): seq<Event> {
    if keys == [] then []
    else From(keys[..|keys| - 1], i) + if keys[|keys| - 1].0 == i then [keys[|keys| - 1].1] else []
  }

  lemma WellFormedNext(completions: seq<Completion>, c: Completion)
    ensures WellFormed([]) == []
    ensures WellFormed(completions + [c]) ==
      WellFormed(completions) + if c.len >= EVENT_BYTES then [Decoded(c.wire)] else []
  {
    assert (completions + [c])[..|completions|] == completions;
  }

  lemma FromNext(keys: seq<(nat, Event)>, i: nat, event: Event, j: nat)
    ensures From(keys + [(i, event)], j) == From(keys, j) + if i == j then [event] else []
  {
    assert (keys + [(i, event)])[..|keys|] == keys;
  }

  // ----- the driver -----

  ghost function InBuffer(s: State, elem: Elem): Completion
    requires elem.id < |s.rings.buffers|
  {
    Completion(elem.id, elem.len, s.rings.buffers[elem.id])
  }

  /** What a step of the driver does to its own state. */
  ghost predicate Effect(s: State, step: Step, t: State) {
    match step
    case Poll => t.driver.hand == Seen && t.past.got == s.past.got
    case Take => t.driver.hand.Taken? && t.past.got == s.past.got
    case Copy =>
      s.driver.hand.Taken? && s.driver.hand.elem.id < |s.rings.buffers| &&
      t.driver.hand == Copied(s.driver.hand.elem.id) && t.past.got == s.past.got + [InBuffer(s, s.driver.hand.elem)]
    case Store => s.driver.hand.Copied? && t.driver.hand == Stored(s.driver.hand.id) && t.past.got == s.past.got
    case Offer => t.driver.hand == Free && t.past.got == s.past.got
    case _ => true
  }

  lemma DriverStepEffect(s: State, n: nat, step: Step)
    requires Sized(s, n) && Enabled(s, n, step)
    ensures Stepped(s, n, step, Next(s, n, step)) && Effect(s, step, Next(s, n, step))
    ensures step.Take? ==> s.driver.hand.Seen?
  {
  }

  /** A descriptor the driver took is one of the queue's own. */
  lemma DescriptorInRange(s: State, n: nat)
    requires Inv(s, n)
    ensures s.driver.hand.Taken? ==> s.driver.hand.elem.id < n
    ensures s.driver.hand.Copied? || s.driver.hand.Stored? ==> s.driver.hand.id < n
    ensures s.driver.hand.Seen? ==> s.past.taken < |s.past.made|
  {
    if s.driver.hand.Copied? || s.driver.hand.Stored? {
      OnePlace(s, n, s.driver.hand.id);
    }
  }

  lemma PendingIsVisible(s: State, n: nat)
    requires Inv(s, n) && s.driver.hand.Free?
    ensures s.rings.usedIdx != s.driver.lastUsed <==> Pending(s)
  {
    Room(s, n);
    WrapDistinct(s.past.taken, |s.past.made| - s.device.unexposed);
  }

  // ----- the queues in memory -----

  /** Different queues share no memory. */
  ghost predicate Separate(queues: seq<EventQueue>) {
    forall i, j | 0 <= i < j < |queues| ::
      queues[i] != queues[j] && queues[i].availRing != queues[j].availRing &&
      queues[i].usedRing != queues[j].usedRing && queues[i].buffers != queues[j].buffers
  }

  ghost function Memory(queues: seq<EventQueue>): (memory: set<object>)
    ensures forall i | 0 <= i < |queues| :: queues[i].Footprint() <= memory
    ensures forall q | q in queues ::
      q in memory && q.availRing in memory && q.usedRing in memory && q.buffers in memory
  {
    if queues == [] then {} else queues[0].Footprint() + Memory(queues[1..])
  }

  /** The queues hold `views`, and keep the protocol's invariant once they are set up. */
  ghost predicate Mirrored(queues: seq<EventQueue>, sizes: seq<nat>, views: seq<State>)
    reads Memory(queues)
  {
    |queues| == |sizes| == |views| && forall i | 0 <= i < |queues| :: Mirrors(queues[i], sizes[i], views[i])
  }

  ghost predicate Mirrors(q: EventQueue, size: nat, view: State)
    reads q, q.availRing, q.usedRing, q.buffers
  {
    q.Valid() && q.size == size && q.View() == view
  }

  lemma MirrorAt(queues: seq<EventQueue>, sizes: seq<nat>, views: seq<State>, i: nat)
    requires Mirrored(queues, sizes, views) && i < |queues|
    ensures i < |sizes| == |views| && Mirrors(queues[i], sizes[i], views[i])
    ensures queues[i].size == sizes[i] && queues[i].usedIdx == views[i].rings.usedIdx
    ensures queues[i].lastUsed == views[i].driver.lastUsed
    ensures sizes[i] > 0 ==> Inv(views[i], sizes[i]) && Sized(views[i], sizes[i])
  {
    assert Mirrors(queues[i], sizes[i], views[i]);
    if sizes[i] > 0 {
      InvSized(views[i], sizes[i]);
    }
    hide Inv, Sized;
  }

  /** The sizes and the contents of queues that are empty or freshly set up. */
  ghost function Sizes(queues: seq<EventQueue>): (sizes: seq<nat>)
    reads Memory(queues)
    ensures |sizes| == |queues| && forall i | 0 <= i < |queues| :: sizes[i] == queues[i].size
  {
    if queues == [] then [] else assert queues[0] in queues; [queues[0].size] + Sizes(queues[1..])
  }

  ghost predicate Shaped(queues: seq<EventQueue>)
    reads Memory(queues)
  {
    forall q | q in queues :: q.Shape()
  }

  ghost function Views(queues: seq<EventQueue>): (views: seq<State>)
    requires Shaped(queues)
    reads Memory(queues)
    ensures |views| == |queues| && forall i | 0 <= i < |queues| :: views[i] == queues[i].View()
  {
    if queues == [] then [] else assert queues[0] in queues; [queues[0].View()] + Views(queues[1..])
  }

  /** As `vhid_init` may leave a queue: not laid out, laid out only, or about to be started. */
  ghost predicate Ready(q: EventQueue)
    reads q, q.availRing, q.usedRing, q.buffers
  {
    q.Shape() && (q.size == 0 || LaidOut(q.View(), q.size) || Started(q.View(), q.size))
  }

  class InputDriver {
    /** Per device: its interrupt line (0 for none) and its event queue. */
    const irqs: seq<U32>
    const queues: seq<EventQueue>
    var next: nat
    /** The events handed to the keyboard code, with their devices. */
    var keys: seq<(nat, Event)>
    /** The devices' future: what they do at each point where the driver can be overtaken. */
    var script: seq<Batch>

    /** The sizes of the queues (0 when not set up), and what their memory holds. */
    ghost const sizes: seq<nat>
    ghost var views: seq<State>

    ghost predicate Valid()
      reads this, Memory(queues)
    {
      |irqs| == |queues| == |sizes| == |views| && (queues != [] ==> next < |queues|) && this !in Memory(queues) &&
      Separate(queues) && Mirrored(queues, sizes, views)
    }

    /** No device is being served. */
    ghost predicate Idle()
      reads this
    {
      AllFree(views, sizes)
    }

    /** The keyboard code got every well-formed event of every device, once and in order. */
    ghost predicate Faithful()
      reads this
    {
      AllFaithful(keys, views, sizes)
    }

    /** Completions that are waiting or still to be made. */
    ghost function Supply(): nat
      reads this
    {
      Backlog(views) + Scripted(script)
    }

    /** The end of `vhid_init`: the devices that could be set up are about to start, the others have
        no queue or one without buffers. */
    constructor (irqs: seq<U32>, queues: seq<EventQueue>, script: seq<Batch>)
      requires |irqs| == |queues| && Separate(queues) && forall q | q in queues :: Ready(q)
      ensures Valid() && Idle() && Faithful()
      ensures this.irqs == irqs && this.queues == queues && next == 0 && keys == [] && this.script == script
      ensures sizes == Sizes(queues)
    {
      hide Started, LaidOut, EventQueue.View, EventQueue.Shape, AllFree, AllFaithful, Mirrored, Separate;
      assert forall i | 0 <= i < |queues| :: queues[i] in queues;
      StartedFaithful(queues, Sizes(queues), Views(queues));
      this.irqs, this.queues, this.script, next, keys := irqs, queues, script, 0, [];
      sizes, views := Sizes(queues), Views(queues);
      new;
      NotInMemory(this, queues);
    }

    // ----- single steps -----

    /** One step of device `i`. */
    method MoveDevice(i: nat, step: Step)
      requires Valid() && i < |queues| && sizes[i] > 0 && Sized(views[i], sizes[i])
      modifies this`views, Memory(queues)
      ensures Valid() && views == old(views)[i := DeviceMove(old(views)[i], sizes[i], step)]
    {
      hide Inv, Sized, DeviceMove, EventQueue.Valid, EventQueue.View, EventQueue.Shape;
      var q := queues[i];
      assert Mirrors(q, sizes[i], views[i]);
      q.DeviceStep(step);
      views := views[i := q.View()];
      forall j | 0 <= j < |queues|
        ensures Mirrors(queues[j], sizes[j], views[j])
      {
        if j != i {
          assert old(Mirrors(queues[j], sizes[j], views[j]));
        }
      }
    }

    /** One step of the driver at queue `i`. */
    method Step(i: nat, step: Step, last: Elem) returns (elem: Elem, event: Event)
      requires Valid() && i < |queues| && sizes[i] > 0 && !OfDevice(step)
      requires Sized(views[i], sizes[i]) && Enabled(views[i], sizes[i], step) && Holds(views[i].driver.hand, last)
      modifies this`views, Memory(queues)
      ensures Valid() && views == old(views)[i := Next(old(views)[i], sizes[i], step)]
      ensures Holds(views[i].driver.hand, elem) && (!step.Take? ==> elem == last)
      ensures step.Copy? && elem.len >= EVENT_BYTES ==>
        elem.id < |old(views)[i].rings.buffers| && event == Decoded(old(views)[i].rings.buffers[elem.id])
    {
      hide Inv, Sized, Enabled, Next, EventQueue.Valid;
      var q := queues[i];
      assert Mirrors(q, sizes[i], views[i]);
      elem, event := q.DriverStep(step, last);
      views := views[i := q.View()];
      forall j | 0 <= j < |queues|
        ensures Mirrors(queues[j], sizes[j], views[j])
      {
        if j != i {
          assert old(Mirrors(queues[j], sizes[j], views[j]));
        }
      }
    }

    // ----- the devices run -----

    /** The devices run for a while. */
    method Elsewhere()
      requires Valid()
      modifies this`script, this`views, Memory(queues)
      ensures Valid() && Supply() <= old(Supply())
      ensures AllAdvanced(old(views), views)
    {
      hide Inv, AllAdvanced, DeviceMove, Sized, Separate, Mirrored;
      NobodyMoved(views);
      if script == [] {
        return;
      }
      var batch := script[0];
      script := script[1..];
      var k := 0;
      while k < |batch|
        invariant 0 <= k <= |batch| && Valid()
        invariant Backlog(views) + Promised(batch[k..]) + Scripted(script) <= old(Supply())
        invariant AllAdvanced(old(views), views)
      {
        var i, step := batch[k].0, batch[k].1;
        if i < |queues| {
          MirrorAt(queues, sizes, views, i);
          if queues[i].size > 0 {
            ghost var mid := views;
            DeviceMoved(mid, i, sizes[i], step, DeviceMove(mid[i], sizes[i], step));
            AllAdvancedTwice(old(views), mid, mid[i := DeviceMove(mid[i], sizes[i], step)]);
            MoveDevice(i, step);
          }
        }
        k := k + 1;
      }
    }

    /** The devices run while the driver is at queue `i`, `k` completions after `start`. */
    method Overtaken(i: nat, ghost start: seq<State>, ghost k: nat)
      requires Valid() && i < |queues| && AdvancedBut(start, views, i, k)
      modifies this`script, this`views, Memory(queues)
      ensures Valid() && Supply() <= old(Supply()) && AdvancedBut(start, views, i, k)
      ensures views[i].driver == old(views)[i].driver && views[i].past.got == old(views)[i].past.got
    {
      hide Inv, AdvancedBut, AllAdvanced, Backlog, Separate, Mirrored;
      ghost var mid := views;
      Elsewhere();
      DevicesAdvance(start, mid, views, i, k);
    }

    // ----- the driver -----

    /** One step of the driver, and then the devices run. */
    method DriverStep(i: nat, step: Step, last: Elem, ghost start: seq<State>, ghost k: nat)
      returns (elem: Elem, event: Event)
      requires Valid() && i < |queues| && sizes[i] > 0 && !OfDevice(step) && AdvancedBut(start, views, i, k)
      requires Enabled(views[i], sizes[i], step) && Holds(views[i].driver.hand, last)
      modifies this`script, this`views, Memory(queues)
      ensures Valid() && AdvancedBut(start, views, i, k + if step.Take? then 1 else 0)
      ensures Effect(old(views)[i], step, views[i]) && Holds(views[i].driver.hand, elem)
      ensures Supply() <= old(Supply()) - if step.Take? then 1 else 0
      ensures !step.Take? ==> elem == last
      ensures step.Copy? && elem.len >= EVENT_BYTES ==> event == CopiedEvent(views[i])
    {
      hide Inv, Enabled, Next, AdvancedBut, Stepped, Backlog, Sized, Effect, Separate, Mirrored, Holds;
      ghost var mid := views;
      MirrorAt(queues, sizes, views, i);
      DescriptorInRange(mid[i], sizes[i]);
      DriverStepEffect(mid[i], sizes[i], step);
      DriverStepAdvances(start, mid, i, k, sizes[i], step, Next(mid[i], sizes[i], step));
      elem, event := Step(i, step, last);
      ghost var stepped := views[i];
      EffectEvent(mid[i], step, stepped, elem);
      Overtaken(i, start, k + if step.Take? then 1 else 0);
      EffectLasts(mid[i], step, stepped, views[i]);
    }

    /** The rest of `vhid_get_event` once queue `i` was found pending: takes its oldest completion
        and gives the descriptor back to the device. */
    method Serve(i: nat, ghost start: seq<State>) returns (valid: bool, event: Event)
      requires Valid() && i < |queues| && sizes[i] > 0 && AllAdvanced(start, views)
      requires views[i].driver.hand == Free && queues[i].usedIdx != queues[i].lastUsed
      modifies this`views, this`script, this`next, Memory(queues)
      ensures Valid() && AdvancedBut(start, views, i, 1) && views[i].driver.hand == Free
      ensures Supply() < old(Supply()) && next == (i + 1) % |queues|
      ensures Received(start[i], views[i], valid, event)
    {
      hide Inv, AdvancedBut, Sized, AllAdvanced, Separate, Mirrored, AllFree, AllFaithful, Backlog, Scripted;
      Begun(start, views, i);
      var elem := TakeOldest(i, start);
      valid := elem.len >= EVENT_BYTES;
      event := GiveBack(i, elem, start);
      next := (i + 1) % |queues|;
      CursorAt(0, i, |queues|);
    }

    /** The oldest element of the used ring. */
    method TakeOldest(i: nat, ghost start: seq<State>) returns (elem: Elem)
      requires Valid() && i < |queues| && sizes[i] > 0 && AdvancedBut(start, views, i, 0)
      requires views[i].driver.hand == Free && queues[i].usedIdx != queues[i].lastUsed
      modifies this`views, this`script, Memory(queues)
      ensures Valid() && AdvancedBut(start, views, i, 1) && Supply() < old(Supply())
      ensures views[i].driver.hand == Taken(elem) && views[i].past.got == old(views)[i].past.got
    {
      hide Inv, AdvancedBut, Sized, AllAdvanced, Separate, Mirrored, AllFree, AllFaithful, Supply;
      MirrorAt(queues, sizes, views, i);
      var last, _ := DriverStep(i, Poll, Elem(0, 0), start, 0);
      var taken, _ := DriverStep(i, Take, last, start, 0);
      elem := taken;
    }

    /** Copies the event and offers its buffer to the device again. */
    method GiveBack(i: nat, elem: Elem, ghost start: seq<State>) returns (event: Event)
      requires Valid() && i < |queues| && sizes[i] > 0 && AdvancedBut(start, views, i, 1)
      requires views[i].driver.hand == Taken(elem)
      modifies this`views, this`script, Memory(queues)
      ensures Valid() && AdvancedBut(start, views, i, 1) && Supply() <= old(Supply())
      ensures views[i].driver.hand == Free && GotOne(old(views)[i], views[i], elem, event)
    {
      hide Inv, AdvancedBut, Sized, AllAdvanced, Separate, Mirrored, AllFree, AllFaithful, Supply;
      MirrorAt(queues, sizes, views, i);
      DescriptorInRange(views[i], sizes[i]);
      var last;
      last, event := DriverStep(i, Copy, elem, start, 1);
      MirrorAt(queues, sizes, views, i);
      DescriptorInRange(views[i], sizes[i]);
      var stored, _ := DriverStep(i, Store, last, start, 1);
      var offered, _ := DriverStep(i, Offer, stored, start, 1);
    }

    /** `vhid_get_event`: serves the first pending device from the cursor on. */
    method GetEvent() returns (result: int, event: Event, index: nat)
      requires Valid() && Idle()
      modifies this`views, this`script, this`next, Memory(queues)
      ensures Valid() && Idle()
      ensures result in {-1, 0, 1} && Supply() <= old(Supply())
      ensures result == 0 ==> AllAdvanced(old(views), views) && next == old(next)
      ensures result == 0 ==> forall j | 0 <= j < |queues| && sizes[j] > 0 :: !Pending(old(views)[j])
      ensures result != 0 ==>
        index < |queues| && sizes[index] > 0 && AdvancedBut(old(views), views, index, 1) &&
        Received(old(views)[index], views[index], result == 1, event) && Supply() < old(Supply())
      ensures result != 0 ==>
        var got, now := old(views)[index].past.got, views[index].past.got;
        got <= now && |now| == |got| + 1 && (result == 1 <==> now[|got|].len >= 8) &&
        (result == 1 ==> event == Decoded(now[|got|].wire))
      ensures result != 0 ==> next == (index + 1) % |queues|
      ensures result != 0 ==> forall j | 0 <= j < |queues| && sizes[j] > 0 && Pending(old(views)[j]) ::
        Offset(old(next), index, |queues|) <= Offset(old(next), j, |queues|)
    {
      hide Inv, AdvancedBut, AllAdvanced, Pending, Backlog, Received, Separate, Mirrored, Decoded;
      result, event, index := 0, NO_EVENT, 0;
      ghost var start := views;
      NobodyMoved(start);
      if |queues| == 0 {
        return;
      }
      var offset := 0;
      while offset < |queues|
        invariant Valid() && Idle() && |queues| == |start| > 0 && next == old(next)
        invariant 0 <= offset <= |queues| && AllAdvanced(start, views) && Supply() <= old(Supply())
        invariant NoneBefore(start, sizes, next, offset)
      {
        index := (next + offset) % |queues|;
        CursorAt(next, offset, |queues|);
        MirrorAt(queues, sizes, views, index);
        if queues[index].size > 0 {
          ghost var mid := views;
          Elsewhere();
          AllAdvancedTwice(start, mid, views);
          StillIdle(mid, views, sizes);
          MirrorAt(queues, sizes, views, index);
          PendingIsVisible(views[index], sizes[index]);
          if queues[index].usedIdx != queues[index].lastUsed {
            var valid;
            valid, event := Serve(index, start);
            IdleAgain(start, views, sizes, index);
            result := if valid then 1 else -1;
            ReceivedMeans(start[index], views[index], valid, event);
            return;
          }
          NotPendingBefore(start, views, index);
        }
        NoneBeforeNext(start, sizes, next, offset);
        offset := offset + 1;
      }
    }

    /** Calls of `vhid_get_event` until device `d`, which is pending, is served: each call serves
        some device, and at most `count - 1` of them serve another one. */
    method ServeUntil(d: nat) returns (ghost cursors: seq<nat>, ghost served: seq<nat>)
      requires Valid() && Idle() && d < |queues| && sizes[d] > 0 && Pending(views[d])
      modifies this`views, this`script, this`next, Memory(queues)
      ensures Valid() && Idle() && AllGrown(old(views), views)
      ensures Bypasses(cursors, served, d, |queues|) && cursors[0] == old(next)
      ensures |served| <= Offset(old(next), d, |queues|) <= |queues| - 1
      ensures forall j | 0 <= j < |queues| ::
        views[j].past.taken == old(views)[j].past.taken + multiset(served + [d])[j]
      ensures next == (d + 1) % |queues|
    {
      hide Inv, AdvancedBut, AllAdvanced, Pending, Backlog, Received, Separate, Mirrored, AllFree, AllGrown, TookFrom;
      cursors, served := [next], [];
      NoneGrown(views);
      NoneTaken(views);
      while true
        invariant Valid() && Idle() && Pending(views[d])
        invariant AllGrown(old(views), views) && TookFrom(old(views), views, served)
        invariant Bypasses(cursors, served, d, |queues|) && cursors[0] == old(next) && cursors[|served|] == next
        decreases Offset(next, d, |queues|)
      {
        ghost var start, cursor := views, next;
        var result, event, index := GetEvent();
        TakenBut(start, views, index, d);
        ServedGrows(start, views, index, result == 1, event);
        GrownTwice(old(views), start, views);
        TookNext(old(views), start, views, served, index);
        if index == d {
          break;
        }
        OffsetShrinks(cursor, index, d, |queues|);
        BypassesNext(cursors, served, d, |queues|, index);
        cursors, served := cursors + [next], served + [index];
      }
      BypassedAtMost(cursors, served, d, |queues|);
      TookMeans(old(views), views, served + [d]);
    }

    /** `vhid_irq_handle`: when it serves an interrupt, the interrupting device has no exposed
        completion left; it ends because only so many completions can come. */
    method IrqHandle(irq: U32) returns (served: bool, ghost line: nat)
      requires Valid() && Idle() && Faithful()
      requires forall i: nat | FirstLine(irqs, irq, i) :: sizes[i] > 0
      modifies this`views, this`script, this`next, this`keys, Memory(queues)
      ensures Valid() && Idle() && Faithful() && old(keys) <= keys && AllGrown(old(views), views)
      ensures forall j | 0 <= j < |queues| && sizes[j] > 0 :: From(keys, j) == WellFormed(views[j].past.got)
      ensures forall j | 0 <= j < |queues| ::
        old(views)[j].past.made <= views[j].past.made && old(views)[j].past.got <= views[j].past.got &&
        |old(views)[j].past.made| - old(views)[j].device.unexposed <= |views[j].past.made| - views[j].device.unexposed
      ensures served ==> FirstLine(irqs, irq, line)
      ensures served ==> queues[line].usedIdx == queues[line].lastUsed && !Pending(views[line])
      ensures !served ==> forall j | 0 <= j < |irqs| :: irqs[j] == 0 || irqs[j] != irq
      ensures !served ==> keys == old(keys) && views == old(views)
    {
      hide Inv, AllFaithful, AllFree, Pending, Separate, Mirrored, AllGrown;
      served, line := false, 0;
      NoneGrown(views);
      var i := 0;
      while i < |queues|
        invariant 0 <= i <= |queues| && Valid() && views == old(views) && keys == old(keys)
        invariant Idle() && Faithful() && !served
        invariant forall j | 0 <= j < i :: irqs[j] == 0 || irqs[j] != irq
      {
        if irqs[i] == 0 || irqs[i] != irq {
          i := i + 1;
          continue;
        }
        assert FirstLine(irqs, irq, i);
        Drain(i);
        served, line := true, i;
        break;
      }
      Meanings(keys, old(views), views, sizes);
    }

    method Drain(i: nat)
      requires Valid() && Idle() && Faithful() && i < |queues| && sizes[i] > 0
      modifies this`views, this`script, this`next, this`keys, Memory(queues)
      ensures Valid() && Idle() && Faithful() && old(keys) <= keys && AllGrown(old(views), views)
      ensures queues[i].usedIdx == queues[i].lastUsed && !Pending(views[i])
    {
      hide Inv, AllAdvanced, Backlog, AllFaithful, AllFree, Pending, Separate, Mirrored, AllGrown;
      NoneGrown(views);
      while true
        invariant Valid() && Idle() && Faithful() && old(keys) <= keys && AllGrown(old(views), views)
        decreases Supply(), if Pending(views[i]) then 0 else 1
      {
        ghost var start := views;
        ReadEvents(i);
        ghost var mid := views;
        Elsewhere();
        DevicesGrow(mid, views);
        GrownTwice(old(views), start, mid);
        GrownTwice(old(views), mid, views);
        StillIdle(mid, views, sizes);
        StillFaithful(keys, mid, views, sizes);
        HandFree(views, sizes, i);
        MirrorAt(queues, sizes, views, i);
        PendingIsVisible(views[i], sizes[i]);
        if queues[i].usedIdx == queues[i].lastUsed {
          break;
        }
      }
    }

    /** Reads events until there is none or one is malformed. */
    method ReadEvents(ghost i: nat)
      requires Valid() && Idle() && Faithful() && i < |queues| && sizes[i] > 0
      modifies this`views, this`script, this`next, this`keys, Memory(queues)
      ensures Valid() && Idle() && Faithful() && old(keys) <= keys && AllGrown(old(views), views)
      ensures Supply() <= old(Supply()) && (Pending(old(views)[i]) ==> Supply() < old(Supply()))
    {
      hide Inv, AllAdvanced, AdvancedBut, Backlog, AllFaithful, AllFree, Pending, Received;
      hide Scripted, Separate, Mirrored, AllGrown;
      NoneGrown(views);
      var result := 1;
      while result > 0
        invariant Valid() && Idle() && Faithful() && old(keys) <= keys && result <= 1 && AllGrown(old(views), views)
        invariant Supply() <= old(Supply())
        invariant Supply() < old(Supply()) || (result > 0 && views == old(views)) || !Pending(old(views)[i])
        decreases Supply(), result + 1
      {
        ghost var start := views;
        var event, index;
        result, event, index := GetEvent();
        if result == 0 {
          StillFaithful(keys, start, views, sizes);
          DevicesGrow(start, views);
        } else {
          FaithfulNext(keys, start, views, sizes, index, result == 1, event);
          ServedGrows(start, views, index, result == 1, event);
        }
        GrownTwice(old(views), start, views);
        if result > 0 {
          keys := keys + [(index, event)];
        }
      }
    }
  }

  /** One completion was taken for every mention of a device in `served`, and none otherwise. */
  ghost predicate TookFrom(views: seq<State>, views': seq<State>, served: seq<nat>) {
    |views| == |views'| &&
    forall j | 0 <= j < |views| :: views'[j].past.taken == views[j].past.taken + multiset(served)[j]
  }

  lemma TookMeans(views: seq<State>, views': seq<State>, served: seq<nat>)
    requires TookFrom(views, views', served)
    ensures |views| == |views'|
    ensures forall j | 0 <= j < |views| :: views'[j].past.taken == views[j].past.taken + multiset(served)[j]
  {
  }

  lemma NoneTaken(views: seq<State>)
    ensures TookFrom(views, views, [])
  {
  }

  lemma TookNext(views: seq<State>, mid: seq<State>, after: seq<State>, served: seq<nat>, i: nat)
    requires TookFrom(views, mid, served) && AdvancedBut(mid, after, i, 1)
    ensures TookFrom(views, after, served + [i])
  {
    hide OnlyDevice;
    forall j | 0 <= j < |views|
      ensures after[j].past.taken == views[j].past.taken + multiset(served + [i])[j]
    {
      TookOne(mid, after, i, j);
    }
  }

  lemma TookOne(mid: seq<State>, after: seq<State>, i: nat, j: nat)
    requires AdvancedBut(mid, after, i, 1) && j < |mid|
    ensures after[j].past.taken == mid[j].past.taken + if j == i then 1 else 0
  {
  }

  lemma TakenBut(states: seq<State>, states': seq<State>, i: nat, d: nat)
    requires AdvancedBut(states, states', i, 1) && d < |states|
    ensures states'[d].past.taken == states[d].past.taken + if d == i then 1 else 0
    ensures d != i && Pending(states[d]) ==> Pending(states'[d])
  {
  }

  /** Serving another device brings the cursor nearer to `d`. */
  lemma OffsetShrinks(next: nat, i: nat, d: nat, count: nat)
    requires next < count && i < count && d < count && i != d && Offset(next, i, count) <= Offset(next, d, count)
    ensures (i + 1) % count < count && Offset((i + 1) % count, d, count) < Offset(next, d, count)
  {
    if i + 1 < count {
      ModUnique(i + 1, 0, i + 1, count);
    } else {
      ModUnique(i + 1, 1, 0, count);
    }
  }

  lemma BypassesNext(cursors: seq<nat>, served: seq<nat>, d: nat, count: nat, i: nat)
    requires Bypasses(cursors, served, d, count) && i < count && i != d
    requires Offset(cursors[|served|], i, count) <= Offset(cursors[|served|], d, count)
    ensures Bypasses(cursors + [(i + 1) % count], served + [i], d, count)
  {
    OffsetShrinks(cursors[|served|], i, d, count);
  }

  /** What the driver's predicates say of every device. */
  lemma Meanings(keys: seq<(nat, Event)>, before: seq<State>, views: seq<State>, sizes: seq<nat>)
    requires AllFaithful(keys, views, sizes) && AllGrown(before, views)
    ensures forall j | 0 <= j < |views| && sizes[j] > 0 :: From(keys, j) == WellFormed(views[j].past.got)
    ensures forall j | 0 <= j < |views| ::
      before[j].past.made <= views[j].past.made && before[j].past.got <= views[j].past.got &&
      |before[j].past.made| - before[j].device.unexposed <= |views[j].past.made| - views[j].device.unexposed
  {
    forall j | 0 <= j < |views|
      ensures before[j].past.made <= views[j].past.made && before[j].past.got <= views[j].past.got
      ensures |before[j].past.made| - before[j].device.unexposed <= |views[j].past.made| - views[j].device.unexposed
    {
      assert Grown(before[j], views[j]);
    }
  }

  /** In every state between calls the protocol states are what lies in memory. */
  lemma ValidMeans(driver: InputDriver)
    requires driver.Valid()
    ensures forall i | 0 <= i < |driver.queues| ::
      driver.queues[i].Shape() && driver.queues[i].size == driver.sizes[i] &&
      driver.queues[i].View() == driver.views[i] &&
      (driver.sizes[i] > 0 ==> Inv(driver.views[i], driver.sizes[i]))
  {
    hide Inv;
    forall i | 0 <= i < |driver.queues|
      ensures driver.queues[i].Shape() && driver.queues[i].size == driver.sizes[i]
      ensures driver.queues[i].View() == driver.views[i]
      ensures driver.sizes[i] > 0 ==> Inv(driver.views[i], driver.sizes[i])
    {
      MirrorAt(driver.queues, driver.sizes, driver.views, i);
    }
  }

  /** The event just copied. */
  ghost function CopiedEvent(s: State): Event {
    if s.past.got == [] then NO_EVENT else Decoded(s.past.got[|s.past.got| - 1].wire)
  }

  lemma EffectEvent(s: State, step: Step, t: State, elem: Elem)
    requires Effect(s, step, t) && Holds(s.driver.hand, elem)
    ensures step.Copy? ==> elem.id < |s.rings.buffers| && CopiedEvent(t) == Decoded(s.rings.buffers[elem.id])
  {
  }

  lemma EffectLasts(s: State, step: Step, t: State, t': State)
    requires Effect(s, step, t) && t'.driver == t.driver && t'.past.got == t.past.got
    ensures Effect(s, step, t') && CopiedEvent(t') == CopiedEvent(t)
  {
  }

  lemma {:induction false} NotInMemory(driver: InputDriver, queues: seq<EventQueue>)
    ensures driver !in Memory(queues)
  {
    if queues != [] {
      NotInMemory(driver, queues[1..]);
    }
  }

  lemma StartedFaithful(queues: seq<EventQueue>, sizes: seq<nat>, views: seq<State>)
    requires |queues| == |sizes| == |views|
    requires forall i | 0 <= i < |queues| ::
      Ready(queues[i]) && queues[i].size == sizes[i] && queues[i].View() == views[i]
    ensures Mirrored(queues, sizes, views) && AllFree(views, sizes) && AllFaithful([], views, sizes)
  {
    hide Inv;
    forall i | 0 <= i < |queues|
      ensures Mirrors(queues[i], sizes[i], views[i])
    {
      if sizes[i] > 0 && LaidOut(views[i], sizes[i]) {
        LaidOutInv(views[i], sizes[i]);
      } else if sizes[i] > 0 {
        StartedInv(views[i], sizes[i]);
      }
    }
  }

  /** Device `i` is the first on that interrupt line. */
  ghost predicate FirstLine(irqs: seq<U32>, irq: U32, i: nat) {
    i < |irqs| && irqs[i] != 0 && irqs[i] == irq && forall j | 0 <= j < i :: irqs[j] == 0 || irqs[j] != irq
  }

  ghost predicate AllFaithful(keys: seq<(nat, Event)>, states: seq<State>, sizes: seq<nat>) {
    |sizes| == |states| &&
    forall j | 0 <= j < |states| && sizes[j] > 0 :: From(keys, j) == WellFormed(states[j].past.got)
  }

  lemma StillFaithful(keys: seq<(nat, Event)>, states: seq<State>, states': seq<State>, sizes: seq<nat>)
    requires AllFaithful(keys, states, sizes) && AllAdvanced(states, states')
    ensures AllFaithful(keys, states', sizes)
  {
    hide From, WellFormed;
  }

  lemma FaithfulNext(keys: seq<(nat, Event)>, states: seq<State>, states': seq<State>, sizes: seq<nat>, i: nat,
      valid: bool, event: Event)
    requires AllFaithful(keys, states, sizes) && AdvancedBut(states, states', i, 1)
    requires Received(states[i], states'[i], valid, event)
    ensures AllFaithful(if valid then keys + [(i, event)] else keys, states', sizes)
  {
    hide From, WellFormed;
    var got, c := states[i].past.got, states'[i].past.got[|states[i].past.got|];
    assert states'[i].past.got == got + [c];
    WellFormedNext(got, c);
    forall j | 0 <= j < |states| && sizes[j] > 0
      ensures From(if valid then keys + [(i, event)] else keys, j) == WellFormed(states'[j].past.got)
    {
      FromNext(keys, i, event, j);
    }
  }

  lemma HandFree(states: seq<State>, sizes: seq<nat>, i: nat)
    requires AllFree(states, sizes) && i < |states| && sizes[i] > 0
    ensures states[i].driver.hand.Free?
  {
  }

  /** The driver got one more completion: its event, if it is long enough to hold one. */
  ghost predicate Received(s: State, t: State, valid: bool, event: Event) {
    |t.past.got| == |s.past.got| + 1 && s.past.got <= t.past.got &&
    var c := t.past.got[|s.past.got|];
    (valid <==> c.len >= EVENT_BYTES) && (valid ==> event == Decoded(c.wire))
  }

  lemma ReceivedMeans(s: State, t: State, valid: bool, event: Event)
    requires Received(s, t, valid, event)
    ensures s.past.got <= t.past.got && |t.past.got| == |s.past.got| + 1
    ensures valid <==> t.past.got[|s.past.got|].len >= 8
    ensures valid ==> event == Decoded(t.past.got[|s.past.got|].wire)
  {
  }

  /** One completion was received, with `event` as its contents if it is long enough. */
  ghost predicate GotOne(s: State, t: State, elem: Elem, event: Event) {
    |t.past.got| == |s.past.got| + 1 && s.past.got <= t.past.got &&
    var c := t.past.got[|s.past.got|];
    c.len == elem.len && (elem.len >= EVENT_BYTES ==> event == Decoded(c.wire))
  }

  lemma Begun(start: seq<State>, states: seq<State>, i: nat)
    requires i < |states| && AllAdvanced(start, states)
    ensures AdvancedBut(start, states, i, 0) && states[i].past.got == start[i].past.got
  {
  }

  ghost predicate AllFree(states: seq<State>, sizes: seq<nat>) {
    |sizes| == |states| && forall i | 0 <= i < |states| && sizes[i] > 0 :: states[i].driver.hand.Free?
  }

  lemma StillIdle(states: seq<State>, states': seq<State>, sizes: seq<nat>)
    requires AllFree(states, sizes) && AllAdvanced(states, states')
    ensures AllFree(states', sizes)
  {
  }

  lemma IdleAgain(states: seq<State>, states': seq<State>, sizes: seq<nat>, i: nat)
    requires AllFree(states, sizes) && AdvancedBut(states, states', i, 1) && states'[i].driver.hand.Free?
    ensures AllFree(states', sizes)
  {
  }

  /** None of the first `offset` devices from the cursor was pending to begin with. */
  ghost predicate NoneBefore(start: seq<State>, sizes: seq<nat>, next: nat, offset: nat) {
    |sizes| == |start| && next < |start| &&
    forall j | 0 <= j < |start| && sizes[j] > 0 && Pending(start[j]) :: offset <= Offset(next, j, |start|)
  }

  lemma NotPendingBefore(start: seq<State>, states: seq<State>, i: nat)
    requires AllAdvanced(start, states) && i < |states| && !Pending(states[i])
    ensures !Pending(start[i])
  {
  }

  lemma NoneBeforeNext(start: seq<State>, sizes: seq<nat>, next: nat, offset: nat)
    requires NoneBefore(start, sizes, next, offset) && offset < |start|
    requires var i := (next + offset) % |start|; i < |start| && (sizes[i] == 0 || !Pending(start[i]))
    ensures NoneBefore(start, sizes, next, offset + 1)
  {
    hide Pending;
    forall j | 0 <= j < |start| && sizes[j] > 0 && Pending(start[j])
      ensures offset + 1 <= Offset(next, j, |start|)
    {
      OffsetUnique(next, j, |start|);
    }
  }
}
