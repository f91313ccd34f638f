/** The event queue (crates/core/src/kernel/equeue.rs).

    Triggering and waiting each hold the queue's lock, except that a waiter that finds nothing
    and has a timeout gives the lock up, sleeps and takes it again. Each locked stretch is one
    step; the theorems quantify over every interleaving of steps of any number of threads. */
module EventQueue {
  import opened Wrappers
  import opened Types

  datatype Event = Event(ident: nat, filter: int, flags: nat, fflags: nat, data: int, udata: nat)

  type ThreadId = nat

  /** A thread asleep between its two locked stretches remembers how much it wants. */
  datatype World = World(
    pending: seq<Event>,
    asleep: map<ThreadId, nat>,
    triggered: seq<Event>,
    batches: seq<Batch>)

  /** What one wait returned, in the order waits drained the queue. */
  datatype Batch = Batch(waiter: ThreadId, maxEvents: nat, events: seq<Event>)

  datatype Action =
    | Trigger(event: Event)
    | Enter(waiter: ThreadId, maxEvents: nat, timed: bool)
    | Wake(waiter: ThreadId)

  function Drained(w: World, t: ThreadId, maxEvents: nat): World {
    var count := Min(|w.pending|, maxEvents);
    w.(pending := w.pending[count..], asleep := w.asleep - {t},
       batches := w.batches + [Batch(t, maxEvents, w.pending[..count])])
  }

  function Step(w: World, a: Action): World {
    match a
    case Trigger(e) => w.(pending := w.pending + [e], triggered := w.triggered + [e])
    case Enter(t, maxEvents, timed) =>
      if w.pending == [] && timed then w.(asleep := w.asleep[t := maxEvents]) else Drained(w, t, maxEvents)
    case Wake(t) => if t in w.asleep then Drained(w, t, w.asleep[t]) else w
  }

  ghost function Run(actions: seq<Action>): World {
    if actions == [] then World([], map[], [], []) else Step(Run(actions[..|actions| - 1]), actions[|actions| - 1])
  }

  ghost function Delivered(bs: seq<Batch>): seq<Event> {
    if bs == [] then [] else Delivered(bs[..|bs| - 1]) + bs[|bs| - 1].events
  }

  /** Nothing is lost, duplicated or reordered. */
  ghost predicate Conserved(w: World) {
    Delivered(w.batches) + w.pending == w.triggered
  }

  lemma StepConserves(w: World, a: Action)
    requires Conserved(w)
    ensures Conserved(Step(w, a))
  {
    match a
    case Trigger(e) =>
      assert Delivered(w.batches) + (w.pending + [e]) == (Delivered(w.batches) + w.pending) + [e];
    case Enter(t, maxEvents, timed) =>
      if !(w.pending == [] && timed) {
        DrainConserves(w, t, maxEvents);
      }
    case Wake(t) =>
      if t in w.asleep {
        DrainConserves(w, t, w.asleep[t]);
      }
  }

  lemma DrainConserves(w: World, t: ThreadId, maxEvents: nat)
    requires Conserved(w)
    ensures Conserved(Drained(w, t, maxEvents))
  {
    var count := Min(|w.pending|, maxEvents);
    var batch := Batch(t, maxEvents, w.pending[..count]);
    assert (w.batches + [batch])[..|w.batches|] == w.batches;
    assert (Delivered(w.batches) + w.pending[..count]) + w.pending[count..]
           == Delivered(w.batches) + (w.pending[..count] + w.pending[count..]);
    assert w.pending[..count] + w.pending[count..] == w.pending;
  }

  /** Over every interleaving the batches in drain order, followed by what is pending, are the
      triggered events: each is delivered at most once and in order. */
  lemma {:induction false} EveryRunConserves(actions: seq<Action>)
    ensures Conserved(Run(actions))
  {
    if actions != [] {
      EveryRunConserves(actions[..|actions| - 1]);
      StepConserves(Run(actions[..|actions| - 1]), actions[|actions| - 1]);
    }
  }

  /** No batch exceeds what its waiter asked for. */
  lemma {:induction false} EveryBatchIsBounded(actions: seq<Action>, k: nat)
    requires k < |Run(actions).batches|
    ensures |Run(actions).batches[k].events| <= Run(actions).batches[k].maxEvents
  {
    if actions != [] {
      var before := Run(actions[..|actions| - 1]);
      if k < |before.batches| {
        EveryBatchIsBounded(actions[..|actions| - 1], k);
      }
    }
  }

  /** How many events the first `k` batches delivered. */
  ghost function DeliveredBefore(bs: seq<Batch>, k: nat): nat
    requires k <= |bs|
  {
    |Delivered(bs[..k])|
  }

  /** The position in the triggered sequence of event `i` of batch `k`. */
  ghost function Position(bs: seq<Batch>, k: nat, i: nat): nat
    requires k < |bs|
  {
    DeliveredBefore(bs, k) + i
  }

  /** Every place in every batch holds one triggered event, and different places hold different
      ones, earlier places earlier ones: no event reaches two waiters or one waiter twice. */
  lemma DeliveredOnce(actions: seq<Action>, k: nat, i: nat)
    requires k < |Run(actions).batches| && i < |Run(actions).batches[k].events|
    ensures var w := Run(actions);
            && Position(w.batches, k, i) < |w.triggered|
            && w.triggered[Position(w.batches, k, i)] == w.batches[k].events[i]
            && forall l: nat, j: nat | l < |w.batches| && j < |w.batches[l].events| ::
                 Position(w.batches, k, i) < Position(w.batches, l, j) <==> (k < l || (k == l && i < j))
  {
    EveryRunConserves(actions);
    var w := Run(actions);
    DeliveredAt(w.batches, k, i);
    var p := Position(w.batches, k, i);
    assert (Delivered(w.batches) + w.pending)[p] == Delivered(w.batches)[p];
    forall l: nat, j: nat | l < |w.batches| && j < |w.batches[l].events|
      ensures p < Position(w.batches, l, j) <==> (k < l || (k == l && i < j))
    {
      if k < l {
        BatchesApart(w.batches, k, l);
      } else if l < k {
        BatchesApart(w.batches, l, k);
      }
    }
  }

  /** A later batch starts where an earlier one has ended. */
  lemma {:induction false} BatchesApart(bs: seq<Batch>, k: nat, l: nat)
    requires k < l <= |bs|
    ensures DeliveredBefore(bs, k) + |bs[k].events| <= DeliveredBefore(bs, l)
    decreases l
  {
    assert bs[..l][..l - 1] == bs[..l - 1];
    if k < l - 1 {
      BatchesApart(bs, k, l - 1);
    }
  }

  lemma {:induction false} DeliveredAt(bs: seq<Batch>, k: nat, i: nat)
    requires k < |bs| && i < |bs[k].events|
    ensures DeliveredBefore(bs, k) + i < |Delivered(bs)|
    ensures Delivered(bs)[DeliveredBefore(bs, k) + i] == bs[k].events[i]
    ensures DeliveredBefore(bs, k + 1) == DeliveredBefore(bs, k) + |bs[k].events|
  {
    assert bs[..k + 1][..k] == bs[..k];
    if k < |bs| - 1 {
      DeliveredAt(bs[..|bs| - 1], k, i);
      assert bs[..|bs| - 1][..k] == bs[..k];
    } else {
      assert bs[..k + 1] == bs;
    }
  }

  /** A waiter that slept takes what arrived in the meantime, up to its bound, and an empty
      batch only if nothing is pending when it wakes or it asked for nothing. */
  lemma WakeTakesWhatArrived(w: World, t: ThreadId)
    requires t in w.asleep
    ensures var w' := Step(w, Wake(t));
            && t !in w'.asleep && |w'.batches| == |w.batches| + 1
            && w'.batches[|w.batches|].waiter == t
            && w'.batches[|w.batches|].events + w'.pending == w.pending
            && (w'.batches[|w.batches|].events == [] <==> w.pending == [] || w.asleep[t] == 0)
  {
  }

  /** Every drain takes the oldest pending events, as many as asked for and there: of a waiter
      that does not sleep, and of one that wakes. One that sleeps takes nothing yet. */
  lemma DrainTakesOldest(w: World, t: ThreadId, maxEvents: nat, timed: bool)
    ensures var w' := Step(w, Enter(t, maxEvents, timed));
            if w.pending == [] && timed then
              w' == World(w.pending, w.asleep[t := maxEvents], w.triggered, w.batches)
            else TookOldest(w, w', t, maxEvents)
    ensures t in w.asleep ==> TookOldest(w, Step(w, Wake(t)), t, w.asleep[t])
  {
    var count := if |w.pending| <= maxEvents then |w.pending| else maxEvents;
    assert w.pending == w.pending[..count] + w.pending[count..];
    if t in w.asleep {
      var woken := if |w.pending| <= w.asleep[t] then |w.pending| else w.asleep[t];
      assert w.pending == w.pending[..woken] + w.pending[woken..];
    }
  }

  /** One more batch, for `t`: a prefix of what was pending, of length `maxEvents` unless less was
      there; and nothing else happened but that `t` is awake. */
  ghost predicate TookOldest(w: World, w': World, t: ThreadId, maxEvents: nat) {
    && |w'.batches| == |w.batches| + 1 && w.batches <= w'.batches
    && w'.batches[|w.batches|].waiter == t && w'.batches[|w.batches|].maxEvents == maxEvents
    && w'.batches[|w.batches|].events + w'.pending == w.pending
    && (|w'.batches[|w.batches|].events| == maxEvents || (|w'.batches[|w.batches|].events| < maxEvents && w'.pending == []))
    && w'.triggered == w.triggered && w'.asleep == w.asleep - {t}
  }

  // ---------------------------------------------------------------------------
  // The queue
  // ---------------------------------------------------------------------------

  class EventQueue {
    var events: seq<Event>

    constructor ()
      ensures events == []
    {
      events := [];
    }

    /** Push an event to the pending queue. */
    method TriggerEvent(event: Event)
      modifies this
      ensures events == old(events) + [event]
      ensures forall w: World | w.pending == old(events) :: Step(w, Trigger(event)).pending == events
    {
      events := events + [event];
    }

    /** The first locked stretch of a wait: None when the caller has to sleep and come back. */
    method WaitEnter(maxEvents: nat, timed: bool) returns (batch: Option<seq<Event>>)
      modifies this
      ensures batch.None? <==> old(events) == [] && timed
      ensures forall w: World, t | w.pending == old(events) ::
                var w' := Step(w, Enter(t, maxEvents, timed));
                && w'.pending == events
                && (batch.Some? ==> w'.batches == w.batches + [Batch(t, maxEvents, batch.value)])
    {
      if events == [] {
        if timed {
          return None;
        }
      }
      var drained := Drain(maxEvents);
      return Some(drained);
    }

    /** The second locked stretch, after the sleep. */
    method WaitWake(maxEvents: nat) returns (batch: seq<Event>)
      modifies this
      ensures forall w: World, t | w.pending == old(events) && t in w.asleep && w.asleep[t] == maxEvents ::
                var w' := Step(w, Wake(t));
                w'.pending == events && w'.batches == w.batches + [Batch(t, maxEvents, batch)]
    {
      batch := Drain(maxEvents);
    }

    method Drain(maxEvents: nat) returns (batch: seq<Event>)
      modifies this
      ensures |batch| == Min(|old(events)|, maxEvents)
      ensures batch == old(events)[..|batch|] && events == old(events)[|batch|..]
    {
      var count := Min(|events|, maxEvents);
      batch := events[..count];
      events := events[count..];
    }
  }
}
