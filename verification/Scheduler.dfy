/** The process queues and the scheduler: `queue` in dstruc.c, `pm_run`, `pm_awake`, `schedule_proc`. */
module Scheduling {
  import opened Arithmetic

  type U8 = x: int | 0 <= x < 256

  const QUEUE_SIZE := 255
  const ROOT: U8 := 1
  /** Ids from here on, and 0, are out of range for `pm_run`. */
  const MAX_PROC := 0xFF
  const SIGNAL := 0xFF

  // ----- the ring queue -----

  class RingQueue {
    const buffer: array<U8>
    const size: nat
    var head: nat
    var tail: nat
    var count: nat

    ghost predicate Valid()
      reads this
    {
      0 < size <= buffer.Length && tail < size && count <= size && head == Slot(tail, count, size)
    }

    /** What is queued, oldest first. */
    ghost function Contents(): (s: seq<U8>)
      requires Valid()
      reads this, buffer
      ensures |s| == count
    {
      seq(count, k requires 0 <= k < count && Valid() reads this, buffer => buffer[Slot(tail, k, size)])
    }

    /** `queue_init`. */
    constructor (buffer: array<U8>, size: nat)
      requires 0 < size <= buffer.Length
      ensures Valid() && this.buffer == buffer && this.size == size && Contents() == []
    {
      this.buffer, this.size := buffer, size;
      head, tail, count := 0, 0, 0;
    }

    method Push(data: U8)
      requires Valid()
      modifies this`head, this`count, buffer
      ensures Valid() && Contents() == old(if |Contents()| < size then Contents() + [data] else Contents())
    {
      if count >= size {
        return;
      }
      ghost var was := Contents();
      SlotsDiffer(tail, count, size);
      buffer[head] := data;
      head := head + 1;
      count := count + 1;
      if head >= size {
        head := 0;
      }
      assert Contents() == was + [data];
    }

    method Pop() returns (data: U8)
      requires Valid()
      modifies this`tail, this`count
      ensures Valid() && Contents() == old(if Contents() == [] then [] else Contents()[1..])
      ensures data == old(if Contents() == [] then 0 else Contents()[0])
    {
      if count == 0 {
        return 0;
      }
      ghost var was := Contents();
      data := buffer[tail];
      tail := tail + 1;
      count := count - 1;
      if tail >= size {
        tail := 0;
      }
      assert Contents() == was[1..];
    }

    method Empty() returns (empty: bool)
      requires Valid()
      ensures empty <==> Contents() == []
    {
      empty := count == 0;
    }
  }

  /** The slot `k` places after `tail`. */
  ghost function Slot(tail: nat, k: nat, size: nat): nat
    requires tail < size && k <= size
  {
    if tail + k < size then tail + k else tail + k - size
  }

  lemma SlotsDiffer(tail: nat, count: nat, size: nat)
    requires tail < size && count < size
    ensures forall k | 0 <= k < count :: Slot(tail, k, size) != Slot(tail, count, size)
  {
  }

  /** A push to a full queue is dropped. */
  function Enqueued(s: seq<U8>, size: nat, data: U8): seq<U8> {
    if |s| >= size then s else s + [data]
  }

  // ----- the scheduler on values -----

  /** The state word of every process. */
  type States = s: seq<U8> | |s| == 256 witness seq(256, _ => 0)

  datatype Processes = Processes(current: U8, low: seq<U8>, high: seq<U8>)

  predicate InRange(id: U8) { 0 < id < MAX_PROC }

  /** `pm_run`: the next process, and the queues without it. */
  function Picked(low: seq<U8>, high: seq<U8>): Processes {
    if high != [] then Processes(if InRange(high[0]) then high[0] else ROOT, low, high[1..])
    else if low != [] then Processes(if InRange(low[0]) then low[0] else ROOT, low[1..], high)
    else Processes(ROOT, low, high)
  }

  /** `schedule_proc`, at a timer interrupt: `state` is the state word of every process. */
  function Tick(s: Processes, state: States): Processes
  {
    var next := Picked(s.low, s.high);
    var awake := next.(low := Enqueued(next.low, QUEUE_SIZE, s.current));
    if state[next.current] == SIGNAL then Picked(awake.low, awake.high).(current := next.current) else awake
  }

  /** All processes in the order in which they will run, the current one last. */
  function Order(s: Processes): seq<U8> {
    s.high + s.low + [s.current]
  }

  function Rotated(order: seq<U8>): seq<U8> {
    if order == [] then [] else order[1..] + [order[0]]
  }

  /** Somebody waits, everybody has a proper id and no signal, and the queues have room. */
  ghost predicate Steady(s: Processes, state: States) {
    0 < |s.high| + |s.low| <= QUEUE_SIZE &&
    forall id | id in Order(s) :: InRange(id) && state[id] != SIGNAL
  }

  /** A tick moves the first process of the order to its end. */
  lemma TickRotates(s: Processes, state: States)
    requires Steady(s, state)
    ensures Order(Tick(s, state)) == Rotated(Order(s)) && Steady(Tick(s, state), state)
    ensures Tick(s, state).current == Order(s)[0]
    ensures multiset(Order(Tick(s, state))) == multiset(Order(s))
  {
    var t, order := Tick(s, state), Order(s);
    FirstIsProper(s, state);
    RestKept(s, state);
    RotatedSame(order);
    StillRoom(s, state);
    hide Tick, Order;
    assert Order(t) == Rotated(order);
  }

  lemma FirstIsProper(s: Processes, state: States)
    requires Steady(s, state)
    ensures Order(s)[0] == (s.high + s.low)[0] && InRange(Order(s)[0])
    ensures Picked(s.low, s.high).current == Order(s)[0] && state[Order(s)[0]] != SIGNAL
  {
    assert Order(s)[0] in Order(s);
  }

  lemma StillRoom(s: Processes, state: States)
    requires 0 < |s.high| + |s.low| <= QUEUE_SIZE
    ensures state[Picked(s.low, s.high).current] != SIGNAL ==>
      |Tick(s, state).high| + |Tick(s, state).low| == |s.high| + |s.low|
  {
  }

  lemma RotatedSame(order: seq<U8>)
    requires order != []
    ensures multiset(Rotated(order)) == multiset(order)
    ensures forall id | id in Rotated(order) :: id in order
  {
    assert order == [order[0]] + order[1..];
    Exchanged(order[1..], order[0], order[0]);
  }

  ghost function Ticks(s: Processes, state: States, n: nat): Processes
  {
    if n == 0 then s else Tick(Ticks(s, state, n - 1), state)
  }

  ghost function Turned(order: seq<U8>, n: nat): (turned: seq<U8>)
    ensures |turned| == |order|
  {
    if n == 0 then order else Rotated(Turned(order, n - 1))
  }

  lemma {:induction false} TurnedAt(order: seq<U8>, n: nat, k: nat)
    requires k < |order|
    ensures Turned(order, n)[k] == order[Position(k, n, |order|)]
  {
    var m := |order|;
    if n == 0 {
      ModUnique(k, 0, k, m);
    } else if k < m - 1 {
      TurnedAt(order, n - 1, k + 1);
    } else {
      TurnedAt(order, n - 1, 0);
      ModShift(n - 1, m);
    }
  }

  ghost function Position(k: nat, n: nat, m: nat): (i: nat)
    requires m > 0
    ensures i < m
  {
    (k + n) % m
  }

  lemma {:induction false} TicksTurn(s: Processes, state: States, n: nat)
    requires Steady(s, state)
    ensures Steady(Ticks(s, state, n), state) && Order(Ticks(s, state, n)) == Turned(Order(s), n)
    ensures multiset(Order(Ticks(s, state, n))) == multiset(Order(s))
  {
    hide Steady, Tick, Order;
    if n > 0 {
      TicksTurn(s, state, n - 1);
      TickRotates(Ticks(s, state, n - 1), state);
    }
  }

  /** Round robin: after `n` ticks the `n`-th process of the order runs, again and again. So the
      process at position `k` of the low queue runs after exactly `|high| + k + 1` ticks. */
  lemma RoundRobin(s: Processes, state: States, n: nat)
    requires Steady(s, state) && n > 0
    ensures Ticks(s, state, n).current == Order(s)[Position(0, n - 1, |Order(s)|)]
    ensures multiset(Order(Ticks(s, state, n))) == multiset(Order(s))
    ensures forall k | 0 <= k < |s.low| && n == |s.high| + k + 1 :: Ticks(s, state, n).current == s.low[k]
  {
    hide Steady, Ticks;
    TicksTurn(s, state, n);
    var m, t := |Order(s)|, Ticks(s, state, n);
    TurnedAt(Order(s), n, m - 1);
    assert t.current == Order(t)[m - 1];
    ModShift(n - 1, m);
    if n - 1 < m {
      ModUnique(n - 1, 0, n - 1, m);
    }
  }

  lemma ModShift(x: nat, n: nat)
    requires n > 0
    ensures (x + n) % n == x % n
  {
    assert x == (x / n) * n + x % n;
    assert (x / n + 1) * n == (x / n) * n + n;
    ModUnique(x + n, x / n + 1, x % n, n);
  }

  /** While nobody has the signal state, a tick keeps all processes exactly when somebody waits,
      the first one has a proper id, and the current one still fits into the low queue. */
  lemma ConservedWhen(s: Processes, state: States)
    requires |s.low| <= QUEUE_SIZE
    requires state[Picked(s.low, s.high).current] != SIGNAL
    ensures multiset(Order(Tick(s, state))) == multiset(Order(s)) <==>
      (s.high + s.low != [] && InRange((s.high + s.low)[0]) && (s.high != [] ==> |s.low| < QUEUE_SIZE))
  {
    var t := Tick(s, state);
    if s.high + s.low != [] && (s.high != [] ==> |s.low| < QUEUE_SIZE) {
      RestKept(s, state);
      hide Tick, Order;
      Exchanged(Order(s)[1..], Order(s)[0], t.current);
    } else {
      assert |multiset(Order(t))| == |Order(t)| && |multiset(Order(s))| == |Order(s)|;
    }
  }

  lemma RestKept(s: Processes, state: States)
    requires |s.low| <= QUEUE_SIZE && state[Picked(s.low, s.high).current] != SIGNAL
    requires s.high + s.low != [] && (s.high != [] ==> |s.low| < QUEUE_SIZE)
    ensures |Order(s)| > 0 && Order(s)[0] == (s.high + s.low)[0] && Order(s) == [Order(s)[0]] + Order(s)[1..]
    ensures Order(Tick(s, state)) == Order(s)[1..] + [Tick(s, state).current]
    ensures Tick(s, state).current == if InRange(Order(s)[0]) then Order(s)[0] else ROOT
  {
  }

  /** A signalled process costs the run queue one of its processes: the second pick is forgotten. */
  lemma SignalLoses(s: Processes, state: States)
    requires 0 < |s.high| + |s.low| <= QUEUE_SIZE && state[Picked(s.low, s.high).current] == SIGNAL
    ensures |Order(Tick(s, state))| == |Order(s)| - 1
  {
  }

  lemma Exchanged(rest: seq<U8>, x: U8, y: U8)
    ensures multiset([x] + rest) == multiset(rest + [y]) <==> x == y
  {
    assert multiset([x] + rest) == multiset(rest) + multiset{x};
    assert multiset(rest + [y]) == multiset(rest) + multiset{y};
    assert (multiset(rest) + multiset{x})[x] == multiset(rest)[x] + 1;
  }

  /** Ids that `pm_run` does not accept stand for the root process. */
  function Proper(id: U8): U8 {
    if 1 <= id <= 254 then id else 1
  }

  /** A tick in terms of the order in which processes wait: the first one runs, or process 1 if
      nobody waits; the one that ran joins the end if there is room; a signal costs one more. */
  lemma TickInOrder(s: Processes, state: States)
    requires |s.low| <= 255
    ensures var waiting := s.high + s.low;
      var next := if waiting == [] then 1 else Proper(waiting[0]);
      var others := if waiting == [] then [] else waiting[1..];
      var room := |s.low| < 255 || s.high == [];
      var t := Tick(s, state);
      t.current == next &&
      t.high == WithoutFirst(WithoutFirst(s.high, true), state[next] == 255) &&
      t.high + t.low == WithoutFirst(others + (if room then [s.current] else []), state[next] == 255)
  {
    var next := Picked(s.low, s.high);
    var low := Enqueued(next.low, QUEUE_SIZE, s.current);
    PickInOrder(s.low, s.high);
    PickInOrder(low, next.high);
    JoinsEnd(next.high, next.low, s.current);
    PickRoom(s.low, s.high);
    hide Picked, Enqueued, Proper;
  }

  lemma PickInOrder(low: seq<U8>, high: seq<U8>)
    ensures var waiting, p := high + low, Picked(low, high);
      p.high + p.low == WithoutFirst(waiting, true) && p.current == if waiting == [] then 1 else Proper(waiting[0])
  {
    if high != [] {
      assert (high + low)[1..] == high[1..] + low;
    }
  }

  lemma PickRoom(low: seq<U8>, high: seq<U8>)
    requires |low| <= 255
    ensures |Picked(low, high).low| < 255 <==> |low| < 255 || high == []
  {
  }

  lemma JoinsEnd(high: seq<U8>, low: seq<U8>, id: U8)
    ensures high + Enqueued(low, QUEUE_SIZE, id) == (high + low) + if |low| < 255 then [id] else []
  {
  }

  ghost function WithoutFirst(ids: seq<U8>, drop: bool): seq<U8> {
    if drop && ids != [] then ids[1..] else ids
  }

  // ----- runs -----

  /** What reaches the scheduler: a process is awakened, or the timer interrupts. */
  datatype Event = Wake(id: U8) | Timer(state: States)

  ghost function After(s: Processes, events: seq<Event>): Processes {
    if events == [] then s
    else
      var n := |events| - 1;
      var before := After(s, events[..n]);
      match events[n]
      case Wake(id) => before.(low := Enqueued(before.low, QUEUE_SIZE, id))
      case Timer(state) => Tick(before, state)
  }

  ghost predicate Known(ids: seq<U8>, live: set<U8>) {
    forall id | id in ids :: id in live
  }

  /** Ticks only run and keep processes that exist. */
  lemma TickKeepsKnown(s: Processes, state: States, live: set<U8>)
    requires 1 in live && Known(Order(s), live)
    ensures Known(Order(Tick(s, state)), live)
  {
    var next := Picked(s.low, s.high);
    PickedKnown(s.low, s.high, live);
    EnqueuedKnown(next.low, QUEUE_SIZE, s.current, live);
    PickedKnown(Enqueued(next.low, QUEUE_SIZE, s.current), next.high, live);
    hide Picked, Enqueued;
    assert s.current in Order(s);
    assert forall id | id in s.low || id in s.high :: id in Order(s);
  }

  lemma PickedKnown(low: seq<U8>, high: seq<U8>, live: set<U8>)
    requires 1 in live
    ensures Known(low, live) && Known(high, live) ==>
      var p := Picked(low, high); p.current in live && Known(p.low, live) && Known(p.high, live)
  {
  }

  lemma EnqueuedKnown(ids: seq<U8>, size: nat, id: U8, live: set<U8>)
    ensures Known(ids, live) && id in live ==> Known(Enqueued(ids, size, id), live)
  {
  }

  /** From the boot state, in which process 1 runs and nobody waits, any run of awakenings of
      processes that exist and of ticks only ever runs processes that exist. */
  lemma {:induction false} OnlyKnownRun(events: seq<Event>, live: set<U8>)
    requires 1 in live && forall e | e in events && e.Wake? :: e.id in live
    ensures After(Processes(1, [], []), events).current in live
    ensures Known(Order(After(Processes(1, [], []), events)), live)
    decreases |events|
  {
    hide Tick, Order, Enqueued;
    var boot := Processes(1, [], []);
    var s := After(boot, events);
    if events == [] {
      OrderKnown(s, live);
    } else {
      var n := |events| - 1;
      assert events[n] in events;
      OnlyKnownRun(events[..n], live);
      var before := After(boot, events[..n]);
      match events[n]
      case Wake(id) =>
        OrderKnown(before, live);
        EnqueuedKnown(before.low, QUEUE_SIZE, id, live);
      case Timer(state) =>
        TickKeepsKnown(before, state, live);
    }
    OrderKnown(s, live);
  }

  lemma OrderKnown(s: Processes, live: set<U8>)
    ensures Known(Order(s), live) <==> s.current in live && Known(s.low, live) && Known(s.high, live)
  {
    assert s.current in Order(s);
    assert forall id | id in s.low || id in s.high :: id in Order(s);
  }

  // ----- the scheduler in memory -----

  class ProcessManager {
    const low: RingQueue
    const high: RingQueue
    const state: array<U8>
    /** `current_proc`, as an id. */
    var current: U8

    ghost predicate Valid()
      reads this, low, high
    {
      low != high && low.buffer != high.buffer && low.Valid() && high.Valid() && state.Length == 256 &&
      low.size == high.size == QUEUE_SIZE && state != low.buffer && state != high.buffer
    }

    ghost function View(): Processes
      requires Valid()
      reads this, low, high, low.buffer, high.buffer
    {
      Processes(current, low.Contents(), high.Contents())
    }

    /** `pm_init`. */
    constructor (current: U8)
      ensures Valid() && View() == Processes(current, [], []) && fresh(low) && fresh(high)
    {
      var lowbuf, highbuf := new U8[256](_ => 0), new U8[256](_ => 0);
      low := new RingQueue(lowbuf, QUEUE_SIZE);
      high := new RingQueue(highbuf, QUEUE_SIZE);
      state := new U8[256](_ => 0);
      this.current := current;
    }

    /** `pm_run`. */
    method Run() returns (next: U8)
      requires Valid()
      modifies low, high
      ensures Valid() && InRange(next)
      ensures Processes(next, low.Contents(), high.Contents()) == old(Picked(low.Contents(), high.Contents()))
      ensures next == old(
        if high.Contents() != [] then Proper(high.Contents()[0])
        else if low.Contents() != [] then Proper(low.Contents()[0])
        else 1)
    {
      var data;
      var highEmpty := high.Empty();
      var lowEmpty := low.Empty();
      if !highEmpty {
        data := high.Pop();
      } else if !lowEmpty {
        data := low.Pop();
      } else {
        return ROOT;
      }
      next := if data >= MAX_PROC || data == 0 then ROOT else data;
    }

    /** `pm_awake` with command 0. */
    method Awake(id: U8)
      requires Valid()
      modifies low, low.buffer
      ensures Valid() && low.Contents() == old(if |low.Contents()| < 255 then low.Contents() + [id] else low.Contents())
    {
      low.Push(id);
    }

    /** `schedule_proc` of the current process, and the assignment of its result at the timer
        interrupt. */
    method OnTimer()
      requires Valid()
      modifies this`current, low, high, low.buffer
      ensures Valid() && View() == old(Tick(View(), state[..])) && state[..] == old(state[..])
    {
      var next := Run();
      Awake(current);
      if state[next] == SIGNAL {
        current := Run();
      }
      current := next;
    }
  }
}
