/**
  The event queue of the runtime (src/runtime.rs): many senders, one receiver, a bounded buffer under a lock.
  Ticks and resizes replace the queued one of their kind; a tick that finds the queue full is dropped; any
  other event waits for room and tries again. A send attempt and a receive are each one step under the lock.
 */
module EventQueue {
  import opened Wrappers

  const EVENT_CAPACITY: nat := 256

  /** What is sent. `Other` stands for every event that is neither a tick nor a resize. */
  datatype Payload = Tick(at: nat) | Resize(columns: nat, rows: nat) | Other(id: nat)

  /** An event and who sent it; the queue never looks at the sender. */
  datatype Event = Event(payload: Payload, sender: nat)

  predicate Coalesces(queued: Event, arriving: Event) {
    || (queued.payload.Tick? && arriving.payload.Tick?)
    || (queued.payload.Resize? && arriving.payload.Resize?)
  }

  datatype Outcome = Replaced | Enqueued | Dropped | Blocked

  // ----- one step under the lock

  /** The first queued event that `event` replaces, or the length. */
  function Match(queue: seq<Event>, event: Event): (i: nat)
    ensures i <= |queue|
    ensures forall k :: 0 <= k < i ==> !Coalesces(queue[k], event)
    ensures i < |queue| ==> Coalesces(queue[i], event)
  {
    if queue == [] || Coalesces(queue[0], event) then 0 else 1 + Match(queue[1..], event)
  }

  /** A tick is dropped, and any other event waits, exactly when the queue is full and holds nothing it replaces. */
  function Attempt(queue: seq<Event>, event: Event): (result: (seq<Event>, Outcome))
    ensures result.1.Dropped? || result.1.Blocked? <==>
              |queue| >= EVENT_CAPACITY && forall k :: 0 <= k < |queue| ==> !Coalesces(queue[k], event)
    ensures result.1.Dropped? ==> event.payload.Tick?
    ensures result.1.Blocked? ==> !event.payload.Tick?
    ensures |result.0| == |queue| + if result.1.Enqueued? then 1 else 0
  {
    var i := Match(queue, event);
    if i < |queue| then (queue[i := event], Replaced)
    else if |queue| < EVENT_CAPACITY then (queue + [event], Enqueued)
    else if event.payload.Tick? then (queue, Dropped)
    else (queue, Blocked)
  }

  /** An accepted event takes the place of the one of its kind, if there is one, and else goes to the end. */
  lemma AttemptKeepsPlaces(queue: seq<Event>, event: Event)
    ensures var (after, outcome) := Attempt(queue, event);
            && (outcome.Replaced? <==> exists i :: 0 <= i < |queue| && Coalesces(queue[i], event))
            && (outcome.Replaced? ==>
                  exists i :: 0 <= i < |queue| && Coalesces(queue[i], event) && after == queue[i := event])
            && (outcome.Enqueued? ==> |queue| < EVENT_CAPACITY && after == queue + [event])
            && (outcome.Dropped? || outcome.Blocked? ==> after == queue)
  {
    var i := Match(queue, event);
    assert i < |queue| ==> Coalesces(queue[i], event);
  }

  lemma {:induction false} MatchIsFirst(queue: seq<Event>, event: Event, i: nat)
    requires i <= |queue|
    requires forall k :: 0 <= k < i ==> !Coalesces(queue[k], event)
    requires i < |queue| ==> Coalesces(queue[i], event)
    ensures Match(queue, event) == i
  {
    if i > 0 {
      MatchIsFirst(queue[1..], event, i - 1);
    }
  }

  class EventQueue {
    var events: seq<Event>

    constructor ()
      ensures events == []
    {
      events := [];
    }

    /** One pass of the loop in `send`; `Blocked` means the sender waits and comes back. */
    method TrySend(event: Event) returns (outcome: Outcome)
      modifies this
      ensures (events, outcome) == Attempt(old(events), event)
    {
      var i := 0;
      while i < |events| && !Coalesces(events[i], event)
        invariant i <= |events|
        invariant forall k :: 0 <= k < i ==> !Coalesces(events[k], event)
      {
        i := i + 1;
      }
      MatchIsFirst(events, event, i);
      if i < |events| {
        events := events[i := event];
        return Replaced;
      }
      if |events| < EVENT_CAPACITY {
        events := events + [event];
        return Enqueued;
      }
      if event.payload.Tick? {
        return Dropped;
      }
      return Blocked;
    }

    /** One pass of the loop in `recv`. */
    method TryReceive() returns (event: Option<Event>)
      modifies this
      ensures old(events) == [] ==> event == None && events == []
      ensures old(events) != [] ==> event == Some(old(events)[0]) && events == old(events)[1..]
    {
      if events == [] {
        return None;
      }
      event := Some(events[0]);
      events := events[1..];
    }
  }

  // ----- all interleavings

  /** A queue, what has come out of it, what it has accepted, and what each sender still has to send. */
  datatype System = System(queue: seq<Event>, delivered: seq<Event>, accepted: seq<Event>, pending: seq<seq<Payload>>)

  /** `Send(i)`: sender `i` tries its next event. `Receive`: the receiver takes the front event, if any. */
  datatype Step = Send(i: nat) | Receive

  function Initial(programs: seq<seq<Payload>>): System {
    System([], [], [], programs)
  }

  function Next(s: System, step: Step): System {
    match step
    case Receive =>
      if s.queue == [] then s
      else s.(queue := s.queue[1..], delivered := s.delivered + [s.queue[0]])
    case Send(i) =>
      if i >= |s.pending| || s.pending[i] == [] then s
      else
        var event := Event(s.pending[i][0], i);
        var (queue, outcome) := Attempt(s.queue, event);
        if outcome == Blocked then s
        else
          System(queue, s.delivered, if outcome == Dropped then s.accepted else s.accepted + [event],
                 s.pending[i := s.pending[i][1..]])
  }

  function Run(programs: seq<seq<Payload>>, steps: seq<Step>): System {
    if steps == [] then Initial(programs) else Next(Run(programs, steps[..|steps| - 1]), steps[|steps| - 1])
  }

  // ----- what a run keeps

  predicate IsTick(e: Event) { e.payload.Tick? }

  predicate IsResize(e: Event) { e.payload.Resize? }

  /** Never replaced and never dropped. */
  predicate IsDurable(e: Event) { e.payload.Other? }

  function DurableFrom(i: nat): Event -> bool {
    e => IsDurable(e) && e.sender == i
  }

  function Filter(events: seq<Event>, keep: Event -> bool): seq<Event> {
    if events == [] then []
    else
      var last := events[|events| - 1];
      if keep(last) then Filter(events[..|events| - 1], keep) + [last] else Filter(events[..|events| - 1], keep)
  }

  function Payloads(events: seq<Event>): (payloads: seq<Payload>)
    ensures |payloads| == |events|
  {
    seq(|events|, k requires 0 <= k < |events| => events[k].payload)
  }

  function DurablePart(payloads: seq<Payload>): seq<Payload> {
    if payloads == [] then []
    else if payloads[0].Other? then [payloads[0]] + DurablePart(payloads[1..])
    else DurablePart(payloads[1..])
  }

  /** The last event satisfying `keep`. */
  function Latest(events: seq<Event>, keep: Event -> bool): Option<Event> {
    if events == [] then None
    else if keep(events[|events| - 1]) then Some(events[|events| - 1])
    else Latest(events[..|events| - 1], keep)
  }

  /** At most one tick and at most one resize. */
  predicate Coalesced(queue: seq<Event>) {
    forall i, j :: 0 <= i < j < |queue| ==> !Coalesces(queue[i], queue[j])
  }

  /** Everything that got past the lock and was not replaced, in queue order. */
  function Kept(s: System): seq<Event> {
    s.delivered + s.queue
  }

  ghost predicate Safe(programs: seq<seq<Payload>>, s: System) {
    && |s.queue| <= EVENT_CAPACITY && Coalesced(s.queue)
    && Filter(Kept(s), IsDurable) == Filter(s.accepted, IsDurable)
    && Latest(Kept(s), IsTick) == Latest(s.accepted, IsTick)
    && Latest(Kept(s), IsResize) == Latest(s.accepted, IsResize)
    && |s.pending| == |programs|
    && forall i :: 0 <= i < |programs| ==>
         Payloads(Filter(Kept(s), DurableFrom(i))) + DurablePart(s.pending[i]) == DurablePart(programs[i])
  }

  lemma {:induction false} FilterReplace(events: seq<Event>, i: nat, event: Event, keep: Event -> bool)
    requires i < |events| && !keep(events[i]) && !keep(event)
    ensures Filter(events[i := event], keep) == Filter(events, keep)
    decreases |events|
  {
    var n := |events| - 1;
    if i < n {
      FilterReplace(events[..n], i, event, keep);
      assert events[i := event][..n] == events[..n][i := event];
    } else {
      assert events[i := event][..n] == events[..n];
    }
  }

  lemma {:induction false} LatestReplace(events: seq<Event>, i: nat, event: Event, keep: Event -> bool)
    requires i < |events| && keep(events[i]) == keep(event)
    requires keep(event) ==> forall j :: i < j < |events| ==> !keep(events[j])
    ensures Latest(events[i := event], keep) == if keep(event) then Some(event) else Latest(events, keep)
    decreases |events|
  {
    var n := |events| - 1;
    if i < n {
      assert events[i := event][..n] == events[..n][i := event];
      LatestReplace(events[..n], i, event, keep);
    } else {
      assert events[i := event][..n] == events[..n];
    }
  }

  lemma AppendOne(events: seq<Event>, event: Event, keep: Event -> bool)
    ensures Filter(events + [event], keep) ==
            if keep(event) then Filter(events, keep) + [event] else Filter(events, keep)
    ensures Latest(events + [event], keep) == if keep(event) then Some(event) else Latest(events, keep)
  {
    assert (events + [event])[..|events|] == events;
  }

  lemma FleetingIsNotDurable(pending: seq<Payload>)
    requires pending != [] && !pending[0].Other?
    ensures DurablePart(pending) == DurablePart(pending[1..])
  {
  }

  lemma ReplacingStaysCoalesced(queue: seq<Event>, m: nat, event: Event)
    requires Coalesced(queue) && m < |queue| && Coalesces(queue[m], event)
    ensures Coalesced(queue[m := event])
  {
    var after := queue[m := event];
    forall a, b | 0 <= a < b < |after|
      ensures !Coalesces(after[a], after[b])
    {
      assert !Coalesces(queue[a], queue[b]);
    }
  }

  lemma ReplacingIsSafe(programs: seq<seq<Payload>>, s: System, i: nat)
    requires Safe(programs, s) && i < |s.pending| && s.pending[i] != []
    requires Match(s.queue, Event(s.pending[i][0], i)) < |s.queue|
    ensures Safe(programs, Next(s, Send(i)))
  {
    hide Filter, Latest, DurablePart, Payloads, Match;
    var event := Event(s.pending[i][0], i);
    var m := Match(s.queue, event);
    var s' := Next(s, Send(i));
    var at := |s.delivered| + m;
    assert Kept(s') == Kept(s)[at := event];
    assert Kept(s)[at] == s.queue[m];
    FilterReplace(Kept(s), at, event, IsDurable);
    AppendOne(s.accepted, event, IsDurable);
    AppendOne(s.accepted, event, IsTick);
    AppendOne(s.accepted, event, IsResize);
    forall j | at < j < |Kept(s)|
      ensures !Coalesces(event, Kept(s)[j])
    {
      assert !Coalesces(s.queue[m], s.queue[j - |s.delivered|]);
    }
    LatestReplace(Kept(s), at, event, IsTick);
    LatestReplace(Kept(s), at, event, IsResize);
    forall k | 0 <= k < |programs|
      ensures Payloads(Filter(Kept(s'), DurableFrom(k))) + DurablePart(s'.pending[k]) == DurablePart(programs[k])
    {
      FilterReplace(Kept(s), at, event, DurableFrom(k));
      FleetingIsNotDurable(s.pending[i]);
    }
    ReplacingStaysCoalesced(s.queue, m, event);
  }

  lemma PayloadsAppend(events: seq<Event>, event: Event)
    ensures Payloads(events + [event]) == Payloads(events) + [event.payload]
  {
  }

  /** Moving an event from sender `i`'s program to the queue's end keeps every sender's `k` total. */
  lemma SenderMovesOn(kept: seq<Event>, pending: seq<Payload>, i: nat, k: nat)
    requires pending != []
    ensures k == i ==>
              Payloads(Filter(kept + [Event(pending[0], i)], DurableFrom(k))) + DurablePart(pending[1..])
              == Payloads(Filter(kept, DurableFrom(k))) + DurablePart(pending)
    ensures k != i ==> Filter(kept + [Event(pending[0], i)], DurableFrom(k)) == Filter(kept, DurableFrom(k))
  {
    hide Filter, Payloads;
    var event := Event(pending[0], i);
    AppendOne(kept, event, DurableFrom(k));
    var before := Filter(kept, DurableFrom(k));
    if k == i && IsDurable(event) {
      PayloadsAppend(before, event);
      assert DurablePart(pending) == [event.payload] + DurablePart(pending[1..]);
    }
  }

  lemma AppendingIsSafe(programs: seq<seq<Payload>>, s: System, i: nat)
    requires Safe(programs, s) && i < |s.pending| && s.pending[i] != []
    requires Match(s.queue, Event(s.pending[i][0], i)) == |s.queue| < EVENT_CAPACITY
    ensures Safe(programs, Next(s, Send(i)))
  {
    hide Filter, Latest, DurablePart, Payloads;
    var event := Event(s.pending[i][0], i);
    var s' := Next(s, Send(i));
    assert Kept(s') == Kept(s) + [event];
    AppendOne(Kept(s), event, IsDurable);
    AppendOne(Kept(s), event, IsTick);
    AppendOne(Kept(s), event, IsResize);
    AppendOne(s.accepted, event, IsDurable);
    AppendOne(s.accepted, event, IsTick);
    AppendOne(s.accepted, event, IsResize);
    assert Coalesced(s'.queue);
    forall k | 0 <= k < |programs|
      ensures Payloads(Filter(Kept(s'), DurableFrom(k))) + DurablePart(s'.pending[k]) == DurablePart(programs[k])
    {
      SenderMovesOn(Kept(s), s.pending[i], i, k);
    }
  }

  lemma StepIsSafe(programs: seq<seq<Payload>>, s: System, step: Step)
    requires Safe(programs, s)
    ensures Safe(programs, Next(s, step))
  {
    match step
    case Receive =>
      if s.queue != [] {
        assert Kept(Next(s, step)) == Kept(s);
      }
    case Send(i) =>
      if i < |s.pending| && s.pending[i] != [] {
        var event := Event(s.pending[i][0], i);
        if Match(s.queue, event) < |s.queue| {
          ReplacingIsSafe(programs, s, i);
        } else if |s.queue| < EVENT_CAPACITY {
          AppendingIsSafe(programs, s, i);
        } else if event.payload.Tick? {
          FleetingIsNotDurable(s.pending[i]);
        }
      }
  }

  /**
    Every interleaving of every set of senders with the receiver is safe: the queue stays within capacity with
    at most one tick and one resize; the durable events delivered and queued are the accepted ones, once each,
    in acceptance order, and each sender's come in the order it sent them, none lost; the newest accepted
    resize and tick are still queued or were the last of their kind delivered.
   */
  lemma {:induction false} EveryRunIsSafe(programs: seq<seq<Payload>>, steps: seq<Step>)
    ensures Safe(programs, Run(programs, steps))
    decreases |steps|
  {
    if steps != [] {
      EveryRunIsSafe(programs, steps[..|steps| - 1]);
      StepIsSafe(programs, Run(programs, steps[..|steps| - 1]), steps[|steps| - 1]);
    } else {
      assert Kept(Initial(programs)) == [];
    }
  }

  lemma QueuedResizeStandsAlone(s: System, k: nat)
    requires Coalesced(s.queue) && k < |s.queue| && IsResize(s.queue[k])
    ensures Latest(Kept(s), IsResize) == Some(s.queue[k])
  {
    hide Latest;
    var at, kept := |s.delivered| + k, Kept(s);
    assert kept[at] == s.queue[k];
    forall j | at < j < |kept|
      ensures !IsResize(kept[j])
    {
      assert kept[j] == s.queue[j - |s.delivered|];
      assert !Coalesces(s.queue[k], s.queue[j - |s.delivered|]);
    }
    assert kept[at := s.queue[k]] == kept;
    LatestReplace(kept, at, s.queue[k], IsResize);
  }

  /** A queued resize holds the size accepted last. */
  lemma QueuedResizeIsTheLatest(programs: seq<seq<Payload>>, steps: seq<Step>, k: nat)
    requires var s := Run(programs, steps); k < |s.queue| && IsResize(s.queue[k])
    ensures var s := Run(programs, steps); Latest(s.accepted, IsResize) == Some(s.queue[k])
  {
    hide Run, Latest, Kept, Coalesced, Filter, Payloads, DurablePart;
    EveryRunIsSafe(programs, steps);
    QueuedResizeStandsAlone(Run(programs, steps), k);
  }

  /** Once everything is sent and received, each sender's durable events have arrived, all of them, in order. */
  lemma DrainedRunsDeliverEverything(programs: seq<seq<Payload>>, steps: seq<Step>, i: nat)
    requires i < |programs|
    requires Run(programs, steps).queue == []
    requires i < |Run(programs, steps).pending| && Run(programs, steps).pending[i] == []
    ensures Payloads(Filter(Run(programs, steps).delivered, DurableFrom(i))) == DurablePart(programs[i])
  {
    EveryRunIsSafe(programs, steps);
    assert Kept(Run(programs, steps)) == Run(programs, steps).delivered;
  }

  function Total(pending: seq<seq<Payload>>): nat {
    if pending == [] then 0 else |pending[0]| + Total(pending[1..])
  }

  /** How much is still to be done: each event to send costs a send and a receive. */
  function Remaining(s: System): nat {
    2 * Total(s.pending) + |s.queue|
  }

  lemma {:induction false} TotalDrops(pending: seq<seq<Payload>>, i: nat)
    requires i < |pending| && pending[i] != []
    ensures Total(pending[i := pending[i][1..]]) == Total(pending) - 1
  {
    var after := pending[i := pending[i][1..]];
    if i == 0 {
      assert after[1..] == pending[1..];
    } else {
      TotalDrops(pending[1..], i - 1);
      assert after[1..] == pending[1..][i - 1 := pending[i][1..]];
    }
  }

  lemma {:induction false} NothingPending(pending: seq<seq<Payload>>) returns (i: nat)
    ensures i <= |pending| && (i < |pending| ==> pending[i] != [])
    ensures i == |pending| ==> Total(pending) == 0
  {
    if pending == [] {
      i := 0;
    } else if pending[0] != [] {
      i := 0;
    } else {
      var rest := NothingPending(pending[1..]);
      i := rest + 1;
    }
  }

  lemma SendingIntoAnEmptyQueue(s: System, i: nat)
    requires s.queue == [] && i < |s.pending| && s.pending[i] != []
    ensures var after := Next(s, Send(i)); |after.queue| == 1 && after.pending == s.pending[i := s.pending[i][1..]]
  {
  }

  lemma SomeStepAdvances(s: System) returns (step: Step)
    requires Remaining(s) > 0
    ensures Remaining(Next(s, step)) < Remaining(s)
  {
    hide Attempt;
    step := Receive;
    if s.queue == [] {
      var i := NothingPending(s.pending);
      TotalDrops(s.pending, i);
      SendingIntoAnEmptyQueue(s, i);
      step := Send(i);
    }
  }

  lemma RunExtends(programs: seq<seq<Payload>>, steps: seq<Step>, step: Step)
    ensures Run(programs, steps + [step]) == Next(Run(programs, steps), step)
  {
    assert (steps + [step])[..|steps|] == steps;
  }

  /** No run gets stuck: whatever has happened, everything can still be sent and received. */
  lemma {:induction false} EveryRunCanFinish(programs: seq<seq<Payload>>, steps: seq<Step>)
    ensures exists more: seq<Step> :: Remaining(Run(programs, steps + more)) == 0
    decreases Remaining(Run(programs, steps))
  {
    hide Run, Next, Remaining;
    var s := Run(programs, steps);
    if Remaining(s) == 0 {
      assert steps + [] == steps;
    } else {
      var step := SomeStepAdvances(s);
      RunExtends(programs, steps, step);
      EveryRunCanFinish(programs, steps + [step]);
      var more :| Remaining(Run(programs, steps + [step] + more)) == 0;
      assert steps + [step] + more == steps + ([step] + more);
    }
  }
}
