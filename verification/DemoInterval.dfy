/** Interim results: units are accumulated until an interval is long enough to report, and the later of
    two timestamps becomes the start of the next interval by swapping two pointers. */
module DemoInterval {
  import opened Timestamps
  import opened Doubles

  /** One displayed interim result. */
  datatype Interim = Interim(units: real, interval: real)

  ghost function Units(shown: seq<Interim>): real {
    if shown == [] then 0.0 else Units(shown[..|shown| - 1]) + shown[|shown| - 1].units
  }

  ghost function Intervals(shown: seq<Interim>): real {
    if shown == [] then 0.0 else Intervals(shown[..|shown| - 1]) + shown[|shown| - 1].interval
  }

  lemma ShownSnoc(shown: seq<Interim>, next: Interim)
    ensures Units(shown + [next]) == Units(shown) + next.units
    ensures Intervals(shown + [next]) == Intervals(shown) + next.interval
  {}

  /** The new guess at how many units fill the desired interval. */
  function Retuned(demoUnits: Double, demoInterval: real, actual: int): Double {
    Multiply(demoUnits, Divide(demoInterval, actual as real))
  }

  /** It is the number of units that would have taken the desired interval at the measured pace. */
  lemma RetunedPace(demoUnits: real, demoInterval: real, actual: int)
    requires actual != 0
    ensures var r := Retuned(Fin(demoUnits), demoInterval, actual);
      r.Fin? && r.r * actual as real == demoUnits * demoInterval
  {
    var a := actual as real;
    assert demoInterval / a * a == demoInterval;
    assert demoUnits * (demoInterval / a) * a == demoUnits * (demoInterval / a * a);
  }

  // ---------------------------------------------------------------- runs, on values

  /** The state that decides what is displayed; `start` is the first timestamp. */
  datatype State = State(demoUnits: Double, unitsThisTick: real, start: TimeVal)

  datatype Event = TickBy(units: nat, now: TimeVal) | ResetAt(now: TimeVal)

  /** One call in mode 1 or 2, and what it displays. */
  function Step(mode: int, demoInterval: real, s: State, e: Event): (State, seq<Interim>)
    requires mode == 1 || mode == 2
  {
    var actual := e.now.Micros() - s.start.Micros();
    var end := Borrowed(s.start, e.now);
    match e
    case ResetAt(now) => (s.(unitsThisTick := 0.0, start := end), [Interim(s.unitsThisTick, actual as real)])
    case TickBy(units, now) =>
      var total := s.unitsThisTick + units as real;
      var looked := mode == 2 || AtLeast(Fin(total), s.demoUnits);
      var demoUnits := if mode == 1 && looked then Retuned(s.demoUnits, demoInterval, actual) else s.demoUnits;
      if looked && actual as real >= demoInterval
      then (State(demoUnits, 0.0, end), [Interim(total, actual as real)])
      else (State(demoUnits, total, s.start), [])
  }

  function Run(mode: int, demoInterval: real, s: State, events: seq<Event>): (State, seq<Interim>)
    requires mode == 1 || mode == 2
    decreases |events|
  {
    if events == [] then (s, [])
    else
      var (s1, shown1) := Step(mode, demoInterval, s, events[0]);
      var (s2, shown2) := Run(mode, demoInterval, s1, events[1..]);
      (s2, shown1 + shown2)
  }

  lemma ShownConcat(a: seq<Interim>, b: seq<Interim>)
    ensures Units(a + b) == Units(a) + Units(b)
    ensures Intervals(a + b) == Intervals(a) + Intervals(b)
  {
    if b == [] {
      assert a + b == a;
    } else {
      var m := |b| - 1;
      assert a + b == (a + b[..m]) + [b[m]];
      ShownConcat(a, b[..m]);
      ShownSnoc(a + b[..m], b[m]);
    }
  }

  ghost function TickedUnits(events: seq<Event>): real {
    if events == [] then 0.0
    else (if events[0].TickBy? then events[0].units as real else 0.0) + TickedUnits(events[1..])
  }

  /** Over every run the displayed units and the pending ones are the ticked ones, and the displayed
      intervals add up to the time from the first timestamp to the last swapped one, although borrowed
      timestamps become the start of the next interval. */
  lemma {:induction false} RunConserves(mode: int, demoInterval: real, s: State, events: seq<Event>)
    requires mode == 1 || mode == 2
    requires 0 <= s.start.usec < 2_000_000
    requires forall e | e in events :: e.now.Normalized()
    ensures var (s', shown) := Run(mode, demoInterval, s, events);
      && Units(shown) + s'.unitsThisTick == s.unitsThisTick + TickedUnits(events)
      && Intervals(shown) == (s'.start.Micros() - s.start.Micros()) as real
      && 0 <= s'.start.usec < 2_000_000
    decreases |events|
  {
    if events != [] {
      assert events[0] in events;
      BorrowKeepsInstant(s.start, events[0].now);
      var (s1, shown1) := Step(mode, demoInterval, s, events[0]);
      ShownOne(shown1);
      RunConserves(mode, demoInterval, s1, events[1..]);
      ShownConcat(shown1, Run(mode, demoInterval, s1, events[1..]).1);
    }
  }

  lemma ShownOne(shown: seq<Interim>)
    requires |shown| <= 1
    ensures shown == [] ==> Units(shown) == 0.0 && Intervals(shown) == 0.0
    ensures shown != [] ==> Units(shown) == shown[0].units && Intervals(shown) == shown[0].interval
  {}

  ghost predicate AllLong(shown: seq<Interim>, demoInterval: real) {
    forall i :: 0 <= i < |shown| ==> shown[i].interval >= demoInterval
  }

  /** Over all runs without a reset: every displayed interval is at least the desired one, and in mode 2 less than
      that is pending after each tick. */
  lemma {:induction false} RunDisplays(mode: int, demoInterval: real, s: State, events: seq<Event>)
    requires mode == 1 || mode == 2
    requires forall e | e in events :: e.TickBy? && e.now.Normalized()
    ensures var (s', shown) := Run(mode, demoInterval, s, events);
      && AllLong(shown, demoInterval)
      && (mode == 2 && events != [] && demoInterval > 0.0 ==>
           (events[|events| - 1].now.Micros() - s'.start.Micros()) as real < demoInterval)
    decreases |events|
  {
    if events != [] {
      assert events[0] in events;
      var (s1, shown1) := Step(mode, demoInterval, s, events[0]);
      TickDisplays(mode, demoInterval, s, events[0]);
      hide Step;
      RunDisplays(mode, demoInterval, s1, events[1..]);
      if events[1..] != [] {
        assert events[1..][|events[1..]| - 1] == events[|events| - 1];
      }
    }
  }

  /** When a tick displays an interim result, and what. */
  lemma TickDisplays(mode: int, demoInterval: real, s: State, e: Event)
    requires mode == 1 || mode == 2
    requires e.TickBy? && e.now.Normalized()
    ensures var (s', shown) := Step(mode, demoInterval, s, e);
      var pending, actual := s.unitsThisTick + e.units as real, e.now.Micros() - s.start.Micros();
      if (mode == 1 ==> AtLeast(Fin(pending), s.demoUnits)) && actual as real >= demoInterval
      then shown == [Interim(pending, actual as real)] && s'.unitsThisTick == 0.0 && s'.start.Micros() == e.now.Micros()
      else shown == [] && s'.unitsThisTick == pending && s'.start == s.start
  {
    hide Retuned;
    BorrowKeepsInstant(s.start, e.now);
  }

  /** A threshold that no accumulation reaches. */
  predicate Unreachable(demoUnits: Double) {
    demoUnits == PosInf || demoUnits == NaN
  }

  /** In mode 1 a tick measures the interval when the accumulated units reach the threshold. */
  predicate MeasuresZero(s: State, e: Event) {
    && e.TickBy?
    && AtLeast(Fin(s.unitsThisTick + e.units as real), s.demoUnits)
    && e.now.Micros() == s.start.Micros()
  }

  /** A call makes the threshold unreachable exactly when it measures an interval of zero... */
  lemma ZeroIntervalStalls(demoInterval: real, s: State, e: Event)
    requires s.demoUnits.Fin? && s.demoUnits.r >= 0.0 && demoInterval >= 0.0
    ensures Unreachable(Step(1, demoInterval, s, e).0.demoUnits) <==> MeasuresZero(s, e)
    ensures MeasuresZero(s, e) ==>
      Step(1, demoInterval, s, e).0.demoUnits == if s.demoUnits.r > 0.0 && demoInterval > 0.0 then PosInf else NaN
  {}

  /** The clock never goes back. */
  ghost predicate Forward(last: int, events: seq<Event>)
    decreases |events|
  {
    events != [] ==> last <= events[0].now.Micros() && Forward(events[0].now.Micros(), events[1..])
  }

  ghost predicate MeasuredZero(demoInterval: real, s: State, events: seq<Event>)
    decreases |events|
  {
    events != [] &&
    (MeasuresZero(s, events[0]) || MeasuredZero(demoInterval, Step(1, demoInterval, s, events[0]).0, events[1..]))
  }

  /** ... and a run does exactly when one of its ticks did. */
  lemma {:induction false} StallsIff(demoInterval: real, s: State, last: int, events: seq<Event>)
    requires s.demoUnits.Fin? && s.demoUnits.r >= 0.0 && demoInterval >= 0.0
    requires s.start.Micros() <= last && Forward(last, events)
    ensures Unreachable(Run(1, demoInterval, s, events).0.demoUnits) <==> MeasuredZero(demoInterval, s, events)
    decreases |events|
  {
    if events != [] {
      var e, s' := events[0], Step(1, demoInterval, s, events[0]).0;
      hide Run;
      RunNext(1, demoInterval, s, events);
      ZeroIntervalStalls(demoInterval, s, e);
      if MeasuresZero(s, e) {
        StaysUnreachable(demoInterval, s', events[1..]);
      } else {
        ThresholdStays(demoInterval, s, e);
        StallsIff(demoInterval, s', e.now.Micros(), events[1..]);
      }
    } else {
      assert Run(1, demoInterval, s, events) == (s, []);
    }
  }

  lemma RunNext(mode: int, demoInterval: real, s: State, events: seq<Event>)
    requires (mode == 1 || mode == 2) && events != []
    ensures var s' := Step(mode, demoInterval, s, events[0]).0;
      Run(mode, demoInterval, s, events).0 == Run(mode, demoInterval, s', events[1..]).0
  {}

  /** A call at or after the start leaves a usable threshold usable, and the next start not after it. */
  lemma ThresholdStays(demoInterval: real, s: State, e: Event)
    requires s.demoUnits.Fin? && s.demoUnits.r >= 0.0 && demoInterval >= 0.0
    requires s.start.Micros() <= e.now.Micros() && !MeasuresZero(s, e)
    ensures var s' := Step(1, demoInterval, s, e).0;
      s'.demoUnits.Fin? && s'.demoUnits.r >= 0.0 && s'.start.Micros() <= e.now.Micros()
  {
    var actual := e.now.Micros() - s.start.Micros();
    if actual > 0 {
      RetunedFinite(s.demoUnits.r, demoInterval, actual as real);
    }
  }

  lemma RetunedFinite(demoUnits: real, demoInterval: real, actual: real)
    requires demoUnits >= 0.0 && demoInterval >= 0.0 && actual > 0.0
    ensures demoUnits * (demoInterval / actual) >= 0.0
  {}

  lemma {:induction false} StaysUnreachable(demoInterval: real, s: State, events: seq<Event>)
    requires Unreachable(s.demoUnits)
    ensures Unreachable(Run(1, demoInterval, s, events).0.demoUnits)
    decreases |events|
  {
    if events != [] {
      StaysUnreachable(demoInterval, Step(1, demoInterval, s, events[0]).0, events[1..]);
    }
  }

  /** From then on nothing but a reset ever displays an interim result again. */
  lemma {:induction false} StalledForever(demoInterval: real, s: State, events: seq<Event>)
    requires Unreachable(s.demoUnits) && forall e | e in events :: e.TickBy?
    ensures Run(1, demoInterval, s, events).1 == []
    decreases |events|
  {
    if events != [] {
      assert events[0] in events;
      StalledForever(demoInterval, Step(1, demoInterval, s, events[0]).0, events[1..]);
    }
  }

  /** A test of one-unit ticks with a threshold of one unit, the first tick within the microsecond in which
      the object was made: neither that tick nor any later one displays anything. */
  lemma StallExample(demoInterval: real, events: seq<Event>)
    requires demoInterval > 0.0 && forall e | e in events :: e.TickBy?
    ensures var first := TickBy(1, TimeVal(0, 0));
      Run(1, demoInterval, State(Fin(1.0), 0.0, TimeVal(0, 0)), [first] + events).1 == []
  {
    hide Step, Run;
    var s, first := State(Fin(1.0), 0.0, TimeVal(0, 0)), TickBy(1, TimeVal(0, 0));
    FirstStalls(demoInterval);
    StalledAfter(demoInterval, s, first, events);
  }

  lemma FirstStalls(demoInterval: real)
    requires demoInterval > 0.0
    ensures Step(1, demoInterval, State(Fin(1.0), 0.0, TimeVal(0, 0)), TickBy(1, TimeVal(0, 0)))
         == (State(PosInf, 1.0, TimeVal(0, 0)), [])
  {
    assert Retuned(Fin(1.0), demoInterval, 0) == PosInf;
    hide Retuned;
  }

  lemma StalledAfter(demoInterval: real, s: State, e: Event, events: seq<Event>)
    requires Unreachable(Step(1, demoInterval, s, e).0.demoUnits) && Step(1, demoInterval, s, e).1 == []
    requires forall e | e in events :: e.TickBy?
    ensures Run(1, demoInterval, s, [e] + events).1 == []
  {
    hide Step;
    StalledForever(demoInterval, Step(1, demoInterval, s, e).0, events);
    assert ([e] + events)[1..] == events;
  }

  class Demo {
    var mode: int
    var demoInterval: real
    var demoUnits: Double
    var unitsThisTick: real
    var onePtr: Timestamp
    var twoPtr: Timestamp

    /** What has been displayed, what has been ticked, and the instant the first interval began. */
    ghost var shown: seq<Interim>
    ghost var ticked: real
    ghost var begun: int

    ghost predicate Valid()
      reads this, onePtr, twoPtr
    {
      && onePtr != twoPtr
      && 0 <= onePtr.usec < 2_000_000
    }

    ghost function Now(): State
      reads this, onePtr
    {
      State(demoUnits, unitsThisTick, onePtr.Value())
    }

    /** Nothing ticked is lost or counted twice, and the displayed intervals follow each other without
        a gap, although a swapped timestamp may carry a borrowed second. */
    ghost predicate Accounted()
      reads this, onePtr
    {
      && Units(shown) + unitsThisTick == ticked
      && Intervals(shown) == (onePtr.Value().Micros() - begun) as real
    }

    /** The first timestamp of a test. */
    constructor (mode: int, demoInterval: real, demoUnits: Double, now: TimeVal)
      requires now.Normalized()
      ensures Valid() && Accounted() && fresh(onePtr) && fresh(twoPtr)
      ensures this.mode == mode && this.demoInterval == demoInterval && this.demoUnits == demoUnits
      ensures shown == [] && ticked == 0.0 && begun == now.Micros()
    {
      var one := new Timestamp();
      one.Take(now);
      onePtr := one;
      twoPtr := new Timestamp();
      this.mode, this.demoInterval, this.demoUnits := mode, demoInterval, demoUnits;
      unitsThisTick, shown, ticked, begun := 0.0, [], 0.0, now.Micros();
    }

    /** Displays the interval up to the second timestamp and makes that the next start. */
    method DisplayAndSwap(actual: int)
      requires Valid() && Accounted()
      requires 0 <= twoPtr.usec < 2_000_000
      requires actual == twoPtr.Value().Micros() - onePtr.Value().Micros()
      modifies this`unitsThisTick, this`shown, this`onePtr, this`twoPtr
      ensures Valid() && Accounted() && unitsThisTick == 0.0
      ensures onePtr == old(twoPtr) && twoPtr == old(onePtr)
      ensures shown == old(shown) + [Interim(old(unitsThisTick), actual as real)]
    {
      ShownSnoc(shown, Interim(unitsThisTick, actual as real));
      shown := shown + [Interim(unitsThisTick, actual as real)];
      unitsThisTick := 0.0;
      var temp := onePtr;
      onePtr := twoPtr;
      twoPtr := temp;
    }

    /** `ok` is false when the source exits on an unknown mode.  `now` is read only if it is needed. */
    method Tick(units: nat, now: TimeVal) returns (ok: bool)
      requires Valid() && Accounted() && now.Normalized()
      modifies this`demoUnits, this`unitsThisTick, this`onePtr, this`twoPtr, this`shown, this`ticked, twoPtr
      ensures Valid() && Accounted()
      ensures {onePtr, twoPtr} == old({onePtr, twoPtr})
      ensures ok <==> mode in {0, 1, 2}
      ensures mode == 1 || mode == 2 ==>
        var (s, displayed) := Step(mode, demoInterval, old(Now()), TickBy(units, now));
        Now() == s && shown == old(shown) + displayed && ticked == old(ticked) + units as real
      ensures mode != 1 && mode != 2 ==> Now() == old(Now()) && shown == old(shown) && ticked == old(ticked)
      ensures mode == 1 || mode == 2 ==>
        var pending := old(unitsThisTick) + units as real;
        var actual := now.Micros() - old(onePtr.Value()).Micros();
        if (mode == 2 || AtLeast(Fin(pending), old(demoUnits))) && actual as real >= demoInterval
        then shown == old(shown) + [Interim(pending, actual as real)] && unitsThisTick == 0.0
             && onePtr == old(twoPtr) && onePtr.Value().Micros() == now.Micros()
        else shown == old(shown) && unitsThisTick == pending
             && onePtr == old(onePtr) && onePtr.Value() == old(onePtr.Value())
      ensures demoUnits == if mode == 1 && AtLeast(Fin(old(unitsThisTick) + units as real), old(demoUnits))
                           then Retuned(old(demoUnits), demoInterval, now.Micros() - old(onePtr.Value()).Micros())
                           else old(demoUnits)
    {
      hide Retuned, AtLeast, Units, Intervals;
      var actual := 0;
      match mode {
        case 0 => return true;
        case 1 =>
          ticked := ticked + units as real;
          unitsThisTick := unitsThisTick + units as real;
          if AtLeast(Fin(unitsThisTick), demoUnits) {
            twoPtr.Take(now);
            actual := DeltaMicro(onePtr, twoPtr);
            demoUnits := Retuned(demoUnits, demoInterval, actual);
          } else {
            return true;
          }
        case 2 =>
          ticked := ticked + units as real;
          unitsThisTick := unitsThisTick + units as real;
          twoPtr.Take(now);
          actual := DeltaMicro(onePtr, twoPtr);
        case _ => return false;
      }
      if actual as real >= demoInterval {
        DisplayAndSwap(actual);
      }
      ok := true;
    }

    method Reset(now: TimeVal)
      requires Valid() && Accounted() && now.Normalized()
      modifies this`unitsThisTick, this`onePtr, this`twoPtr, this`shown, twoPtr
      ensures Valid() && Accounted() && unitsThisTick == 0.0
      ensures {onePtr, twoPtr} == old({onePtr, twoPtr})
      ensures var (s, displayed) := Step(2, demoInterval, old(Now()), ResetAt(now));
        Now() == s && shown == old(shown) + displayed
      ensures shown == old(shown)
                       + [Interim(old(unitsThisTick), (now.Micros() - old(onePtr.Value()).Micros()) as real)]
      ensures onePtr == old(twoPtr) && onePtr.Value().Micros() == now.Micros()
    {
      twoPtr.Take(now);
      var actual := DeltaMicro(onePtr, twoPtr);
      DisplayAndSwap(actual);
    }

    /** At the end of a test whatever is left is displayed; the timestamps are not swapped. */
    method Final(now: TimeVal)
      requires Valid() && Accounted() && now.Normalized()
      modifies this`unitsThisTick, this`shown, twoPtr
      ensures Valid()
      ensures mode in {1, 2} && old(unitsThisTick) > 0.0 ==>
        && unitsThisTick == 0.0 && Units(shown) == ticked
        && Intervals(shown) == (now.Micros() - begun) as real
      ensures !(mode in {1, 2} && old(unitsThisTick) > 0.0) ==> shown == old(shown) && Accounted()
    {
      if (mode == 1 || mode == 2) && unitsThisTick > 0.0 {
        twoPtr.Take(now);
        var actual := DeltaMicro(onePtr, twoPtr);
        ShownSnoc(shown, Interim(unitsThisTick, actual as real));
        shown := shown + [Interim(unitsThisTick, actual as real)];
        unitsThisTick := 0.0;
      }
    }
  }
}
