/** The circular queue of outstanding start timestamps, as a value: what each operation does to the
    indices and slots, and the first-in first-out queue it stands for. */
module TimestampRing {
  import opened Division
  import opened Timestamps

  datatype Ring = Ring(limit: nat, count: int, producer: int, consumer: int, slots: seq<TimeVal>) {
    predicate WellFormed() {
      |slots| == limit && 0 <= producer < limit && 0 <= consumer < limit
    }
  }

  datatype Stopped = Added(ring: Ring, delta: int) | Exited

  function Start(r: Ring, now: TimeVal): Ring
    requires r.WellFormed()
  {
    r.(slots := r.slots[r.producer := now], producer := (r.producer + 1) % r.limit, count := r.count + 1)
  }

  /** An empty queue ends the program. */
  function Stop(r: Ring, now: TimeVal): Stopped
    requires r.WellFormed()
  {
    if r.consumer == r.producer then Exited
    else Added(r.(consumer := (r.consumer + 1) % r.limit, count := r.count - 1),
               now.Micros() - r.slots[r.consumer].Micros())
  }

  function Purge(r: Ring): Ring {
    r.(count := 0, producer := 0, consumer := 0)
  }

  // ---------------------------------------------------------------- the queue it stands for

  function Slot(r: Ring, j: int): int {
    if r.consumer + j < r.limit then r.consumer + j else r.consumer + j - r.limit
  }

  /** `q` lists the outstanding timestamps, oldest first; one slot is always spare. */
  ghost predicate Represents(r: Ring, q: seq<TimeVal>) {
    && r.WellFormed()
    && r.count == |q| < r.limit
    && r.producer == Slot(r, |q|)
    && forall j :: 0 <= j < |q| ==> r.slots[Slot(r, j)] == q[j]
  }

  /** The two indices meet exactly when nothing is outstanding, and the counter is their distance. */
  lemma EmptyIffIndicesMeet(r: Ring, q: seq<TimeVal>)
    requires Represents(r, q)
    ensures r.producer == r.consumer <==> q == []
    ensures r.count == (r.producer - r.consumer) % r.limit
  {
    var distance := r.producer - r.consumer;
    Remainder(distance, if distance < 0 then -1 else 0, r.limit, |q|);
  }

  lemma NextIndex(i: int, limit: int)
    requires 0 <= i < limit
    ensures (i + 1) % limit == if i + 1 == limit then 0 else i + 1
  {}

  lemma StartRefines(r: Ring, q: seq<TimeVal>, now: TimeVal)
    requires Represents(r, q)
    ensures |q| + 1 < r.limit ==> Represents(Start(r, now), q + [now])
    ensures |q| + 1 == r.limit ==> forall later :: Stop(Start(r, now), later) == Exited
  {
    NextIndex(r.producer, r.limit);
    var r' := Start(r, now);
    assert forall j :: 0 <= j < |q| ==> Slot(r, j) != r.producer && Slot(r', j) == Slot(r, j);
  }

  lemma StopRefines(r: Ring, q: seq<TimeVal>, now: TimeVal)
    requires Represents(r, q)
    ensures q == [] <==> Stop(r, now) == Exited
    ensures q != [] ==> Represents(Stop(r, now).ring, q[1..])
    ensures q != [] ==> Stop(r, now).delta == now.Micros() - q[0].Micros()
  {
    EmptyIffIndicesMeet(r, q);
    if q != [] {
      NextIndex(r.consumer, r.limit);
      var r' := Stop(r, now).ring;
      assert forall j :: 0 <= j < |q| - 1 ==> Slot(r', j) == Slot(r, j + 1);
      assert Slot(r, 0) == r.consumer;
    }
  }

  // ---------------------------------------------------------------- whole runs

  datatype Event = StartAt(now: TimeVal) | StopAt(now: TimeVal) | PurgeAll
  datatype Run<S> = Finished(state: S, deltas: seq<int>) | Aborted

  function Prepend<S>(delta: int, rest: Run<S>): Run<S> {
    if rest.Finished? then rest.(deltas := [delta] + rest.deltas) else rest
  }

  function RunRing(r: Ring, events: seq<Event>): Run<Ring>
    requires r.WellFormed()
    decreases |events|
  {
    if events == [] then Finished(r, [])
    else
      match events[0]
      case StartAt(now) => RunRing(Start(r, now), events[1..])
      case PurgeAll => RunRing(Purge(r), events[1..])
      case StopAt(now) =>
        match Stop(r, now)
        case Exited => Aborted
        case Added(r', delta) => Prepend(delta, RunRing(r', events[1..]))
  }

  /** The reference: an unbounded queue of start times. */
  function RunQueue(q: seq<TimeVal>, events: seq<Event>): Run<seq<TimeVal>>
    decreases |events|
  {
    if events == [] then Finished(q, [])
    else
      match events[0]
      case StartAt(now) => RunQueue(q + [now], events[1..])
      case PurgeAll => RunQueue([], events[1..])
      case StopAt(now) =>
        if q == [] then Aborted
        else Prepend(now.Micros() - q[0].Micros(), RunQueue(q[1..], events[1..]))
  }

  /** At most `bound` timestamps are ever outstanding. */
  predicate StaysWithin(outstanding: nat, events: seq<Event>, bound: int)
    decreases |events|
  {
    outstanding <= bound &&
    (events != [] ==>
      match events[0]
      case StartAt(_) => StaysWithin(outstanding + 1, events[1..], bound)
      case PurgeAll => StaysWithin(0, events[1..], bound)
      case StopAt(_) => outstanding > 0 ==> StaysWithin(outstanding - 1, events[1..], bound))
  }

  /** Every run that stays within the announced maximum behaves as the unbounded queue does: same
      exits, same recorded differences in the same order, same timestamps left outstanding. */
  lemma {:induction false} RunRefines(r: Ring, q: seq<TimeVal>, events: seq<Event>)
    requires Represents(r, q) && StaysWithin(|q|, events, r.limit - 1)
    ensures RunRing(r, events).Aborted? <==> RunQueue(q, events).Aborted?
    ensures RunRing(r, events).Finished? ==>
      && RunRing(r, events).deltas == RunQueue(q, events).deltas
      && Represents(RunRing(r, events).state, RunQueue(q, events).state)
    decreases |events|
  {
    if events != [] {
      match events[0]
      case StartAt(now) =>
        StartRefines(r, q, now);
        RunRefines(Start(r, now), q + [now], events[1..]);
      case PurgeAll =>
        RunRefines(Purge(r), [], events[1..]);
      case StopAt(now) =>
        StopRefines(r, q, now);
        if q != [] {
          RunRefines(Stop(r, now).ring, q[1..], events[1..]);
        }
    }
  }

  function Starts(events: seq<Event>): seq<TimeVal> {
    if events == [] then []
    else if events[0].StartAt? then [events[0].now] + Starts(events[1..])
    else Starts(events[1..])
  }

  function Stops(events: seq<Event>): seq<TimeVal> {
    if events == [] then []
    else if events[0].StopAt? then [events[0].now] + Stops(events[1..])
    else Stops(events[1..])
  }

  /** In a run without purges the j-th difference pairs the j-th stop with the j-th start, however
      starts and stops interleave. */
  lemma {:induction false} StopsPairWithStarts(q: seq<TimeVal>, events: seq<Event>)
    requires PurgeAll !in events
    requires RunQueue(q, events).Finished?
    ensures var deltas := RunQueue(q, events).deltas;
      && Pairs(deltas, q + Starts(events), Stops(events))
      && RunQueue(q, events).state == (q + Starts(events))[|deltas|..]
    decreases |events|
  {
    hide RunQueue, Starts, Stops;
    RunQueueUnfolds(q, events);
    if events == [] {
      assert q + Starts(events) == q;
    } else {
      var rest := events[1..];
      match events[0]
      case StartAt(now) =>
        StopsPairWithStarts(q + [now], rest);
        assert q + Starts(events) == (q + [now]) + Starts(rest);
      case StopAt(now) =>
        StopsPairWithStarts(q[1..], rest);
        PairFirst(q, Starts(rest), now, Stops(rest), RunQueue(q[1..], rest).deltas);
    }
  }

  lemma RunQueueUnfolds(q: seq<TimeVal>, events: seq<Event>)
    ensures events == [] ==> RunQueue(q, events) == Finished(q, []) && Starts(events) == [] && Stops(events) == []
    ensures events != [] && events[0].StartAt? ==>
      && RunQueue(q, events) == RunQueue(q + [events[0].now], events[1..])
      && Starts(events) == [events[0].now] + Starts(events[1..]) && Stops(events) == Stops(events[1..])
    ensures events != [] && events[0].StopAt? ==>
      && Starts(events) == Starts(events[1..]) && Stops(events) == [events[0].now] + Stops(events[1..])
      && (if q == [] then RunQueue(q, events) == Aborted
          else RunQueue(q, events)
               == Prepend(events[0].now.Micros() - q[0].Micros(), RunQueue(q[1..], events[1..])))
  {}

  /** The j-th difference is that of the j-th stop from the j-th start. */
  predicate Pairs(deltas: seq<int>, starts: seq<TimeVal>, stops: seq<TimeVal>) {
    && |deltas| == |stops| <= |starts|
    && forall j :: 0 <= j < |deltas| ==> deltas[j] == stops[j].Micros() - starts[j].Micros()
  }

  lemma PairFirst(q: seq<TimeVal>, starts: seq<TimeVal>, now: TimeVal, stops: seq<TimeVal>, deltas: seq<int>)
    requires q != [] && Pairs(deltas, q[1..] + starts, stops)
    ensures Pairs([now.Micros() - q[0].Micros()] + deltas, q + starts, [now] + stops)
    ensures (q[1..] + starts)[|deltas|..] == (q + starts)[|deltas| + 1..]
  {
    assert q + starts == [q[0]] + (q[1..] + starts);
  }
}
