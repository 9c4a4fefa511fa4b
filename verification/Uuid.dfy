/** Version 1 UUIDs as in RFC 4122: a clock whose readings are told apart by a counter, the packing of a
    timestamp into fields, and the printed form. */
module Uuid {
  import opened Division
  import opened Timestamps

  const UUIDS_PER_TICK := 1024
  const TWO60 := 0x1000_0000_0000_0000

  /** 100 ns ticks from the start of the UUID epoch to that of the system clock. */
  const EPOCH_OFFSET := 0x01B2_1DD2_1381_4000

  /** The number of a day in the Gregorian calendar; years begin in March. */
  function DayNumber(year: int, month: int, day: int): int {
    var y, m := if month <= 2 then year - 1 else year, if month <= 2 then month + 9 else month - 3;
    365 * y + y / 4 - y / 100 + y / 400 + (153 * m + 2) / 5 + day
  }

  /** The UUID epoch is the Gregorian reform, 15 October 1582; the system clock's is 1 January 1970. */
  lemma EpochOffset()
    ensures EPOCH_OFFSET == (DayNumber(1970, 1, 1) - DayNumber(1582, 10, 15)) * 86_400 * 10_000_000
  {}

  /** get_system_time: the clock has a resolution of ten ticks. */
  function SystemTime(now: TimeVal): int {
    now.sec * 10_000_000 + now.usec * 10 + EPOCH_OFFSET
  }

  // ---------------------------------------------------------------- timestamps

  /** The static variables of get_current_time. */
  datatype ClockState = ClockState(inited: bool, timeLast: int, uuidsThisTick: int)

  const AT_START := ClockState(false, 0, 0)

  /** A call either finds a timestamp and leaves the later readings of the clock, or is still spinning
      when the readings end. */
  datatype Reading = Stamped(state: ClockState, timestamp: int, rest: seq<int>) | Spinning

  function Spin(s: ClockState, readings: seq<int>): Reading {
    if readings == [] then Spinning
    else
      var now := readings[0];
      if s.timeLast != now then Stamped(ClockState(true, now, 0), now, readings[1..])
      else if s.uuidsThisTick < UUIDS_PER_TICK
      then Stamped(s.(uuidsThisTick := s.uuidsThisTick + 1), now + s.uuidsThisTick + 1, readings[1..])
      else Spin(s, readings[1..])
  }

  function CurrentTime(s: ClockState, readings: seq<int>): Reading {
    if s.inited then Spin(s, readings)
    else if readings == [] then Spinning
    else Spin(ClockState(true, s.timeLast, UUIDS_PER_TICK), readings[1..])
  }

  class UuidClock {
    var inited: bool
    var timeLast: int
    var uuidsThisTick: int

    ghost function State(): ClockState
      reads this
    {
      ClockState(inited, timeLast, uuidsThisTick)
    }

    constructor ()
      ensures State() == AT_START
    {
      inited, timeLast, uuidsThisTick := false, 0, 0;
    }

    /** `readings` are what the clock shows one call of get_system_time after the other; `done` is false
        if they end while the call is still spinning. */
    method GetCurrentTime(readings: seq<int>) returns (done: bool, timestamp: int, used: nat)
      modifies this
      ensures used <= |readings|
      ensures match CurrentTime(old(State()), readings)
        case Stamped(s, t, rest) => done && State() == s && timestamp == t && readings[used..] == rest
        case Spinning => !done && timeLast == old(timeLast)
    {
      used, timestamp := 0, 0;
      if !inited {
        if used == |readings| {
          return false, 0, 0;
        }
        used := used + 1;
        uuidsThisTick := UUIDS_PER_TICK;
        inited := true;
      }
      ghost var s := State();
      while true
        invariant used <= |readings| && State() == s && timeLast == old(timeLast)
        invariant CurrentTime(old(State()), readings) == Spin(s, readings[used..])
        decreases |readings| - used
      {
        if used == |readings| {
          return false, 0, used;
        }
        var timeNow := readings[used];
        used := used + 1;
        assert readings[used - 1..][1..] == readings[used..];
        if timeLast != timeNow {
          uuidsThisTick := 0;
          timeLast := timeNow;
          timestamp := timeNow + uuidsThisTick;
          return true, timestamp, used;
        }
        if uuidsThisTick < UUIDS_PER_TICK {
          uuidsThisTick := uuidsThisTick + 1;
          timestamp := timeNow + uuidsThisTick;
          return true, timestamp, used;
        }
      }
    }
  }

  /** The timestamps of repeated calls, until the readings end. */
  function Generated(s: ClockState, readings: seq<int>): seq<int>
    decreases |readings|
  {
    match CurrentTime(s, readings)
    case Spinning => []
    case Stamped(s', t, rest) =>
      CurrentTimeUses(s, readings);
      [t] + Generated(s', rest)
  }

  lemma CurrentTimeUses(s: ClockState, readings: seq<int>)
    ensures var r := CurrentTime(s, readings); r.Stamped? ==> |r.rest| < |readings|
  {
    SpinUses(s, readings);
    if readings != [] {
      SpinUses(ClockState(true, s.timeLast, UUIDS_PER_TICK), readings[1..]);
    }
  }

  lemma {:induction false} SpinUses(s: ClockState, readings: seq<int>)
    ensures var r := Spin(s, readings); r.Stamped? ==> |r.rest| < |readings|
  {
    if readings != [] {
      SpinUses(s, readings[1..]);
    }
  }

  ghost predicate Within(readings: seq<int>, lo: int, hi: int) {
    forall i :: 0 <= i < |readings| ==> lo <= readings[i] <= hi
  }

  ghost predicate Running(s: ClockState) { s.inited && 0 <= s.uuidsThisTick <= UUIDS_PER_TICK }

  /** The first reading other than `last` lies beyond `bound`. */
  ghost predicate NextBeyond(last: int, bound: int, readings: seq<int>) {
    readings != [] && if readings[0] == last then NextBeyond(last, bound, readings[1..]) else readings[0] > bound
  }

  /** One call from a running clock: its timestamp exceeds the last one exactly if the clock stands still and
      the counter has room, or if its first new reading is beyond what the counter has reached. */
  lemma {:induction false} NextExceedsIff(s: ClockState, readings: seq<int>)
    requires Running(s) && CurrentTime(s, readings).Stamped?
    ensures var r := CurrentTime(s, readings);
      && Running(r.state) && r.timestamp == r.state.timeLast + r.state.uuidsThisTick
      && (r.timestamp > s.timeLast + s.uuidsThisTick
          <==> (readings[0] == s.timeLast && s.uuidsThisTick < UUIDS_PER_TICK)
               || NextBeyond(s.timeLast, s.timeLast + s.uuidsThisTick, readings))
  {
    if s.timeLast == readings[0] && s.uuidsThisTick == UUIDS_PER_TICK {
      NextExceedsIff(s, readings[1..]);
    }
  }

  /** A standing clock is good for 1024 more timestamps; then the call spins. */
  lemma TickCapacity(s: ClockState)
    requires Running(s)
    ensures CurrentTime(s, [s.timeLast]).Stamped? <==> s.uuidsThisTick < 1024
  {
    assert [s.timeLast][1..] == [];
    assert Spin(s, []) == Spinning;
  }

  ghost predicate Increasing(ts: seq<int>) {
    forall i, j :: 0 <= i < j < |ts| ==> ts[i] < ts[j]
  }

  lemma IncreasingCons(a: int, ts: seq<int>)
    ensures Increasing([a] + ts) <==> Increasing(ts) && (ts != [] ==> a < ts[0])
  {
    var all := [a] + ts;
    forall i, j | Increasing(all) && 0 <= i < j < |ts| ensures ts[i] < ts[j] {
      assert all[i + 1] < all[j + 1];
    }
    if Increasing(all) && ts != [] {
      assert all[0] < all[1];
    }
  }

  /** Every new reading is beyond the one before by more than the number of readings that repeated it, of
      which the counter takes 1024. */
  ghost predicate Outpaces(last: int, repeats: int, readings: seq<int>)
    decreases |readings|
  {
    readings != [] ==>
      if readings[0] == last
      then Outpaces(last, if repeats < UUIDS_PER_TICK then repeats + 1 else repeats, readings[1..])
      else readings[0] > last + repeats && Outpaces(readings[0], 0, readings[1..])
  }

  /** Over any run of calls the timestamps strictly increase exactly when the clock outpaces the counter. */
  lemma {:induction false} IncreaseIff(s: ClockState, readings: seq<int>)
    requires Running(s)
    ensures Increasing([s.timeLast + s.uuidsThisTick] + Generated(s, readings))
       <==> Outpaces(s.timeLast, s.uuidsThisTick, readings)
    decreases |readings|
  {
    var last := s.timeLast + s.uuidsThisTick;
    if readings == [] {
      assert Generated(s, readings) == [];
    } else if readings[0] == s.timeLast && s.uuidsThisTick == UUIDS_PER_TICK {
      assert CurrentTime(s, readings) == CurrentTime(s, readings[1..]);
      IncreaseIff(s, readings[1..]);
    } else {
      var r := CurrentTime(s, readings);
      assert r.rest == readings[1..];
      IncreaseIff(r.state, r.rest);
      IncreasingCons(last, Generated(s, readings));
      assert Generated(s, readings) == [r.timestamp] + Generated(r.state, r.rest);
    }
  }

  /** The same from the start of the program, where the first reading is thrown away and the next one is the
      first timestamp. */
  lemma GeneratedFromStart(readings: seq<int>)
    requires |readings| > 1 ==> readings[1] != AT_START.timeLast
    ensures Increasing(Generated(AT_START, readings))
       <==> |readings| > 1 ==> Outpaces(readings[1], 0, readings[2..])
  {
    hide Generated, Outpaces;
    FirstCall(readings);
    if |readings| > 1 {
      IncreaseIff(ClockState(true, readings[1], 0), readings[2..]);
    }
  }

  lemma FirstCall(readings: seq<int>)
    ensures |readings| <= 1 ==> Generated(AT_START, readings) == []
    ensures |readings| > 1 && readings[1] != AT_START.timeLast ==>
      Generated(AT_START, readings) == [readings[1]] + Generated(ClockState(true, readings[1], 0), readings[2..])
  {
    if |readings| > 1 && readings[1] != AT_START.timeLast {
      assert readings[1..][1..] == readings[2..];
      assert CurrentTime(AT_START, readings) == Stamped(ClockState(true, readings[1], 0), readings[1], readings[2..]);
    }
  }

  ghost predicate Distinct<T(!new)>(ts: seq<T>) {
    forall i, j :: 0 <= i < j < |ts| ==> ts[i] != ts[j]
  }

  /** The clock never goes back. */
  ghost predicate Forward(last: int, readings: seq<int>)
    decreases |readings|
  {
    readings != [] ==> last <= readings[0] && Forward(readings[0], readings[1..])
  }

  /** A new reading that does not outpace the counter was issued before: `issued` are the timestamps so far,
      all those of the current tick among them. */
  lemma {:induction false} RepeatIfNotOutpaced(issued: seq<int>, s: ClockState, readings: seq<int>)
    requires Running(s) && Forward(s.timeLast, readings)
    requires forall t :: s.timeLast <= t <= s.timeLast + s.uuidsThisTick ==> t in issued
    requires Distinct(issued + Generated(s, readings))
    ensures Outpaces(s.timeLast, s.uuidsThisTick, readings)
    decreases |readings|
  {
    if readings == [] {
    } else if readings[0] == s.timeLast && s.uuidsThisTick == UUIDS_PER_TICK {
      assert CurrentTime(s, readings) == CurrentTime(s, readings[1..]);
      RepeatIfNotOutpaced(issued, s, readings[1..]);
    } else {
      var r := CurrentTime(s, readings);
      assert r.rest == readings[1..];
      var later := Generated(r.state, r.rest);
      assert issued + Generated(s, readings) == (issued + [r.timestamp]) + later;
      FirstNotIssued(issued, r.timestamp, later);
      RepeatIfNotOutpaced(issued + [r.timestamp], r.state, r.rest);
    }
  }

  lemma FirstNotIssued(issued: seq<int>, t: int, later: seq<int>)
    requires Distinct((issued + [t]) + later)
    ensures t !in issued
  {
    var all := (issued + [t]) + later;
    assert forall i :: 0 <= i < |issued| ==> all[i] == issued[i];
    assert all[|issued|] == t;
  }

  /** On a clock that does not go back no timestamp of a run is issued twice exactly when the clock outpaces
      the counter. */
  lemma DistinctIff(readings: seq<int>)
    requires |readings| > 1 ==> readings[1] != AT_START.timeLast && Forward(readings[1], readings[2..])
    ensures Distinct(Generated(AT_START, readings))
       <==> |readings| > 1 ==> Outpaces(readings[1], 0, readings[2..])
  {
    hide Generated, Outpaces, Forward;
    GeneratedFromStart(readings);
    FirstCall(readings);
    if |readings| > 1 && Distinct(Generated(AT_START, readings)) {
      RepeatIfNotOutpaced([readings[1]], ClockState(true, readings[1], 0), readings[2..]);
    }
  }

  /** Between two readings the clock either stands still or advances by more than the counter can. */
  ghost predicate Paced(last: int, readings: seq<int>)
    decreases |readings|
  {
    readings != [] ==>
      (readings[0] == last || readings[0] > last + UUIDS_PER_TICK) && Paced(readings[0], readings[1..])
  }

  /** Such a clock outpaces the counter whatever the number of calls. */
  lemma {:induction false} PacedOutpaces(last: int, repeats: int, readings: seq<int>)
    requires 0 <= repeats <= UUIDS_PER_TICK && Paced(last, readings)
    ensures Outpaces(last, repeats, readings)
    decreases |readings|
  {
    if readings != [] {
      PacedOutpaces(readings[0], if readings[0] != last then 0 else if repeats < UUIDS_PER_TICK then repeats + 1
                                 else repeats, readings[1..]);
    }
  }

  lemma {:induction false} GeneratedWithin(s: ClockState, readings: seq<int>, lo: int, hi: int)
    requires s == AT_START || Running(s)
    requires Within(readings, lo, hi)
    ensures Within(Generated(s, readings), lo, hi + UUIDS_PER_TICK)
    decreases |readings|
  {
    var r := CurrentTime(s, readings);
    if r.Stamped? {
      CurrentTimeUses(s, readings);
      if s.inited {
        SpinWithin(s, readings, lo, hi);
      } else {
        SpinWithin(ClockState(true, s.timeLast, UUIDS_PER_TICK), readings[1..], lo, hi);
      }
      GeneratedWithin(r.state, r.rest, lo, hi);
    }
  }

  lemma {:induction false} SpinWithin(s: ClockState, readings: seq<int>, lo: int, hi: int)
    requires Running(s) && Within(readings, lo, hi)
    ensures var r := Spin(s, readings);
      r.Stamped? ==> Running(r.state) && lo <= r.timestamp <= hi + UUIDS_PER_TICK && Within(r.rest, lo, hi)
  {
    if readings != [] {
      SpinWithin(s, readings[1..], lo, hi);
    }
  }

  // ---------------------------------------------------------------- the system clock

  /** The system clock itself advances by ten ticks a microsecond, which is not enough: the timestamp of the
      next reading is new exactly if fewer than ten were added for each microsecond since. */
  lemma MicrosecondClock(s: ClockState, now: TimeVal, later: TimeVal)
    requires Running(s) && s.timeLast == SystemTime(now) && later.Micros() != now.Micros()
    ensures var r := CurrentTime(s, [SystemTime(later)]);
      && r.Stamped?
      && (r.timestamp > s.timeLast + s.uuidsThisTick
          <==> s.uuidsThisTick < 10 * (later.Micros() - now.Micros()))
      && (r.timestamp == s.timeLast + s.uuidsThisTick
          <==> s.uuidsThisTick == 10 * (later.Micros() - now.Micros()))
  {}

  ghost function ReadingsOf(times: seq<TimeVal>): (readings: seq<int>)
    ensures |readings| == |times|
  {
    seq(|times|, i requires 0 <= i < |times| => SystemTime(times[i]))
  }

  /** A microsecond that is read r + 1 times is followed, if at all, by one more than r / 10 later. */
  ghost predicate TenPerMicrosecond(last: int, repeats: int, times: seq<TimeVal>)
    decreases |times|
  {
    times != [] ==>
      var now := times[0].Micros();
      if now == last
      then TenPerMicrosecond(last, if repeats < UUIDS_PER_TICK then repeats + 1 else repeats, times[1..])
      else repeats < 10 * (now - last) && TenPerMicrosecond(now, 0, times[1..])
  }

  lemma {:induction false} TenPerMicrosecondOutpaces(last: TimeVal, repeats: int, times: seq<TimeVal>)
    ensures Outpaces(SystemTime(last), repeats, ReadingsOf(times))
       <==> TenPerMicrosecond(last.Micros(), repeats, times)
    decreases |times|
  {
    var readings := ReadingsOf(times);
    if times != [] {
      assert readings[0] == SystemTime(times[0]) && readings[1..] == ReadingsOf(times[1..]);
      TenPerMicrosecondOutpaces(times[0], if times[0].Micros() != last.Micros() then 0
                                          else if repeats < UUIDS_PER_TICK then repeats + 1 else repeats, times[1..]);
      SameMicros(times[0], last);
    }
  }

  lemma SameMicros(a: TimeVal, b: TimeVal)
    ensures a.Micros() == b.Micros() <==> SystemTime(a) == SystemTime(b)
  {}

  /** Over all runs of the program on the system clock: timestamps strictly increase exactly when no
      microsecond is read too often for the advance that follows it. */
  lemma SystemClockRuns(times: seq<TimeVal>)
    requires forall t | t in times :: t.sec >= 0 && t.usec >= 0
    ensures Increasing(Generated(AT_START, ReadingsOf(times)))
       <==> |times| > 1 ==> TenPerMicrosecond(times[1].Micros(), 0, times[2..])
  {
    var readings := ReadingsOf(times);
    if |times| > 1 {
      assert times[1] in times;
      assert readings[2..] == ReadingsOf(times[2..]);
      TenPerMicrosecondOutpaces(times[1], 0, times[2..]);
    }
    GeneratedFromStart(readings);
  }

  lemma {:induction false} AfterRepeats(t: TimeVal, repeats: nat, n: nat, next: TimeVal)
    requires repeats + n <= UUIDS_PER_TICK && next.Micros() != t.Micros()
    ensures TenPerMicrosecond(t.Micros(), repeats, seq(n, _ => t) + [next])
       <==> repeats + n < 10 * (next.Micros() - t.Micros())
    decreases n
  {
    var times := seq(n, _ => t) + [next];
    if n > 0 {
      assert times[1..] == seq(n - 1, _ => t) + [next];
      AfterRepeats(t, repeats + 1, n - 1, next);
    } else {
      assert times[1..] == [];
    }
  }

  /** Eleven UUIDs within a microsecond and one in the next: two of their timestamps are equal. */
  lemma ElevenInAMicrosecond(t: TimeVal)
    requires t.sec >= 0 && t.usec >= 0
    ensures var ts := Generated(AT_START, ReadingsOf(seq(12, _ => t) + [TimeVal(t.sec, t.usec + 1)]));
      exists i, j :: 0 <= i < j < |ts| && ts[i] == ts[j]
  {
    var next := TimeVal(t.sec, t.usec + 1);
    var times := seq(12, _ => t) + [next];
    var readings := ReadingsOf(times);
    assert times[2..] == seq(10, _ => t) + [next] && readings[2..] == ReadingsOf(times[2..]);
    AfterRepeats(t, 0, 10, next);
    TenPerMicrosecondOutpaces(t, 0, times[2..]);
    RepeatsForward(t, 10, next);
    DistinctIff(readings);
  }

  lemma {:induction false} RepeatsForward(t: TimeVal, n: nat, next: TimeVal)
    requires t.Micros() <= next.Micros()
    ensures Forward(SystemTime(t), ReadingsOf(seq(n, _ => t) + [next]))
    decreases n
  {
    var times := seq(n, _ => t) + [next];
    var readings := ReadingsOf(times);
    assert readings[1..] == ReadingsOf(times[1..]);
    if n > 0 {
      assert times[1..] == seq(n - 1, _ => t) + [next];
      RepeatsForward(t, n - 1, next);
    }
  }

  // ---------------------------------------------------------------- fields

  class NetperfUuid {
    var timeLow: int
    var timeMid: int
    var timeHiAndVersion: int
    var clockSeqHiAndReserved: int
    var clockSeqLow: int
    var node: seq<int>

    ghost function Fields(): Fields
      reads this
    {
      Uuid(timeLow, timeMid, timeHiAndVersion, clockSeqHiAndReserved, clockSeqLow, node)
    }

    constructor () {
      timeLow, timeMid, timeHiAndVersion, clockSeqHiAndReserved, clockSeqLow, node := 0, 0, 0, 0, 0, [];
    }

    method FormatV1(clockSeq: int, timestamp: int, node: seq<int>)
      requires 0 <= timestamp && 0 <= clockSeq < 0x1_0000
      requires |node| == 6 && forall i :: 0 <= i < 6 ==> 0 <= node[i] < 256
      modifies this
      ensures Fields() == Formatted(clockSeq, timestamp, node)
    {
      timeLow := timestamp % 0x1_0000_0000;
      timeMid := timestamp / 0x1_0000_0000 % 0x1_0000;
      timeHiAndVersion := timestamp / 0x1_0000_0000_0000 % 0x1000;
      timeHiAndVersion := timeHiAndVersion + 0x1000;
      clockSeqLow := clockSeq % 0x100;
      clockSeqHiAndReserved := clockSeq % 0x4000 / 0x100;
      clockSeqHiAndReserved := clockSeqHiAndReserved + 0x80;
      this.node := node;
    }
  }

  /** uuid_create: the clock sequence and the node are drawn at random. */
  method UuidCreate(clock: UuidClock, uuid: NetperfUuid, readings: seq<int>, clockSeq: int, node: seq<int>)
    returns (done: bool, used: nat)
    requires 0 <= clockSeq < 0x1_0000
    requires |node| == 6 && forall i :: 0 <= i < 6 ==> 0 <= node[i] < 256
    requires clock.inited ==> 0 <= clock.uuidsThisTick
    requires forall i :: 0 <= i < |readings| ==> 0 <= readings[i]
    modifies clock, uuid
    ensures used <= |readings|
    ensures match CurrentTime(old(clock.State()), readings)
      case Stamped(s, t, rest) =>
        && done && clock.State() == s && readings[used..] == rest
        && 0 <= t && uuid.Fields() == Formatted(clockSeq, t, node)
      case Spinning => !done && uuid.Fields() == old(uuid.Fields())
  {
    CurrentTimeNonNegative(clock.State(), readings);
    var timestamp;
    done, timestamp, used := clock.GetCurrentTime(readings);
    if done {
      uuid.FormatV1(clockSeq, timestamp, node);
    }
  }

  lemma {:induction false} SpinNonNegative(s: ClockState, readings: seq<int>)
    requires 0 <= s.uuidsThisTick && forall i :: 0 <= i < |readings| ==> 0 <= readings[i]
    ensures Spin(s, readings).Stamped? ==> Spin(s, readings).timestamp >= 0
  {
    if readings != [] {
      SpinNonNegative(s, readings[1..]);
    }
  }

  lemma CurrentTimeNonNegative(s: ClockState, readings: seq<int>)
    requires s.inited ==> 0 <= s.uuidsThisTick
    requires forall i :: 0 <= i < |readings| ==> 0 <= readings[i]
    ensures CurrentTime(s, readings).Stamped? ==> CurrentTime(s, readings).timestamp >= 0
  {
    if s.inited {
      SpinNonNegative(s, readings);
    } else if readings != [] {
      SpinNonNegative(ClockState(true, s.timeLast, UUIDS_PER_TICK), readings[1..]);
    }
  }

  datatype Fields = Uuid(timeLow: int, timeMid: int, timeHiAndVersion: int,
                         clockSeqHiAndReserved: int, clockSeqLow: int, node: seq<int>)
  {
    ghost predicate Valid() {
      && 0 <= timeLow < 0x1_0000_0000 && 0 <= timeMid < 0x1_0000 && 0 <= timeHiAndVersion < 0x1_0000
      && 0 <= clockSeqHiAndReserved < 0x100 && 0 <= clockSeqLow < 0x100
      && |node| == 6 && forall i :: 0 <= i < 6 ==> 0 <= node[i] < 256
    }

    /** The timestamp the fields carry, read back as section 4.1.4 of RFC 4122 lays it out. */
    function Timestamp(): int {
      timeHiAndVersion % 0x1000 * 0x1_0000_0000_0000 + timeMid * 0x1_0000_0000 + timeLow
    }
  }

  /** The packed fields: shifts and masks of the unsigned values are divisions and remainders. */
  function Formatted(clockSeq: int, timestamp: int, node: seq<int>): Fields {
    Uuid(timestamp % 0x1_0000_0000, timestamp / 0x1_0000_0000 % 0x1_0000,
         timestamp / 0x1_0000_0000_0000 % 0x1000 + 0x1000,
         clockSeq % 0x4000 / 0x100 + 0x80, clockSeq % 0x100, node)
  }

  /** The three parts of a timestamp make up its lower 60 bits. */
  lemma TimestampParts(timestamp: nat)
    ensures timestamp / 0x1_0000_0000_0000 % 0x1000 * 0x1_0000_0000_0000
          + timestamp / 0x1_0000_0000 % 0x1_0000 * 0x1_0000_0000 + timestamp % 0x1_0000_0000
         == timestamp % TWO60
  {
    var high, low := timestamp / 0x1_0000_0000, timestamp % 0x1_0000_0000;
    var top, mid := high / 0x1_0000, high % 0x1_0000;
    Remainder(timestamp, top, 0x1_0000_0000_0000, mid * 0x1_0000_0000 + low);
    Remainder(timestamp, top / 0x1000, TWO60, top % 0x1000 * 0x1_0000_0000_0000 + mid * 0x1_0000_0000 + low);
  }

  lemma ClockSeqParts(clockSeq: nat)
    ensures clockSeq % 0x4000 / 0x100 * 0x100 + clockSeq % 0x100 == clockSeq % 0x4000
    ensures clockSeq % 0x4000 / 0x100 < 0x40
  {
    var c := clockSeq % 0x4000;
    Remainder(clockSeq, clockSeq / 0x4000 * 0x40 + c / 0x100, 0x100, c % 0x100);
  }

  /** The version of section 4.1.3 and the variant of section 4.1.1 of RFC 4122, and nothing but the top
      bits of a timestamp past 2^60 is lost. */
  lemma FormatRoundTrip(clockSeq: int, timestamp: int, node: seq<int>)
    requires 0 <= timestamp && 0 <= clockSeq < 0x1_0000
    requires |node| == 6 && forall i :: 0 <= i < 6 ==> 0 <= node[i] < 256
    ensures var u := Formatted(clockSeq, timestamp, node);
      && u.Valid()
      && u.timeHiAndVersion / 0x1000 == 1
      && u.clockSeqHiAndReserved / 0x40 == 2
      && u.Timestamp() == timestamp % TWO60
      && u.clockSeqHiAndReserved % 0x40 * 0x100 + u.clockSeqLow == clockSeq % 0x4000
      && u.node == node
  {
    TimestampParts(timestamp);
    ClockSeqParts(clockSeq);
  }

  // ---------------------------------------------------------------- text

  function HexDigit(d: int): (c: char)
    requires 0 <= d < 16
  {
    "0123456789abcdef"[d]
  }

  function Pow16(n: nat): int {
    if n == 0 then 1 else 16 * Pow16(n - 1)
  }

  /** "%w.wx": w lower-case hexadecimal digits. */
  function Hex(v: int, width: nat): (s: string)
    requires v >= 0
    ensures |s| == width
  {
    if width == 0 then [] else Hex(v / 16, width - 1) + [HexDigit(v % 16)]
  }

  /** A reader of lower-case hexadecimal digits. */
  function HexValue(c: char): int {
    if '0' <= c <= '9' then c as int - '0' as int else if 'a' <= c <= 'f' then c as int - 'a' as int + 10 else 0
  }

  function ReadHex(s: string): int {
    if s == [] then 0 else 16 * ReadHex(s[..|s| - 1]) + HexValue(s[|s| - 1])
  }

  lemma {:induction false} ReadHexOfHex(v: int, width: nat)
    requires 0 <= v < Pow16(width)
    ensures ReadHex(Hex(v, width)) == v
  {
    if width > 0 {
      assert Hex(v, width)[..width - 1] == Hex(v / 16, width - 1);
      ReadHexOfHex(v / 16, width - 1);
      ReadDigit(v % 16);
    }
  }

  lemma ReadDigit(d: int)
    requires 0 <= d < 16
    ensures HexValue(HexDigit(d)) == d
  {}

  lemma Powers()
    ensures Pow16(2) == 0x100 && Pow16(4) == 0x1_0000 && Pow16(8) == 0x1_0000_0000
  {}

  /** The part before the node. */
  function Head(u: Fields): (s: string)
    requires u.Valid()
    ensures |s| == 24
  {
    Hex(u.timeLow, 8) + "-" + Hex(u.timeMid, 4) + "-" + Hex(u.timeHiAndVersion, 4) + "-"
    + Hex(u.clockSeqHiAndReserved, 2) + Hex(u.clockSeqLow, 2) + "-"
  }

  /** The first n bytes of the node. */
  function NodeText(node: seq<int>, n: nat): (s: string)
    requires n <= |node| && forall i :: 0 <= i < |node| ==> 0 <= node[i] < 256
    ensures |s| == 2 * n
  {
    if n == 0 then [] else NodeText(node, n - 1) + Hex(node[n - 1], 2)
  }

  /** The printed form: 36 characters. */
  function Text(u: Fields): (s: string)
    requires u.Valid()
    ensures |s| == 36
  {
    Head(u) + NodeText(u.node, 6)
  }

  /** Version and variant show in the text, at the places section 3 of RFC 4122 gives them. */
  lemma TextShowsVersion(clockSeq: int, timestamp: int, node: seq<int>)
    requires 0 <= timestamp && 0 <= clockSeq < 0x1_0000
    requires |node| == 6 && forall i :: 0 <= i < 6 ==> 0 <= node[i] < 256
    ensures var u := Formatted(clockSeq, timestamp, node);
      && u.Valid()
      && Text(u)[14] == '1'
      && Text(u)[19] in {'8', '9', 'a', 'b'}
      && Text(u)[8] == Text(u)[13] == Text(u)[18] == Text(u)[23] == '-'
  {
    FormatRoundTrip(clockSeq, timestamp, node);
    hide Formatted, Text;
    var u := Formatted(clockSeq, timestamp, node);
    TextLayout(u);
    VersionDigit(u.timeHiAndVersion);
    VariantDigit(u.clockSeqHiAndReserved);
  }

  lemma TextLayout(u: Fields)
    requires u.Valid()
    ensures Text(u)[14] == Hex(u.timeHiAndVersion, 4)[0]
    ensures Text(u)[19] == Hex(u.clockSeqHiAndReserved, 2)[0]
    ensures Text(u)[8] == Text(u)[13] == Text(u)[18] == Text(u)[23] == '-'
  {}

  lemma VersionDigit(v: int)
    requires v / 0x1000 == 1
    ensures Hex(v, 4)[0] == '1'
  {
    hide Hex;
    FirstDigit(v, 4);
    FirstDigit(v / 16, 3);
    FirstDigit(v / 16 / 16, 2);
    FirstDigit(v / 16 / 16 / 16, 1);
    assert v / 16 / 16 / 16 == 1;
  }

  lemma VariantDigit(v: int)
    requires v / 0x40 == 2
    ensures Hex(v, 2)[0] in {'8', '9', 'a', 'b'}
  {}

  lemma FirstDigit(v: int, width: nat)
    requires v >= 0 && width > 0
    ensures width == 1 ==> Hex(v, width)[0] == HexDigit(v % 16)
    ensures width > 1 ==> Hex(v, width)[0] == Hex(v / 16, width - 1)[0]
  {}

  /** Reading the printed form back. */
  function ReadText(s: string): Fields
    requires |s| == 36
  {
    Uuid(ReadHex(s[0..8]), ReadHex(s[9..13]), ReadHex(s[14..18]), ReadHex(s[19..21]), ReadHex(s[21..23]),
         seq(6, i requires 0 <= i < 6 => ReadHex(s[24 + 2 * i..26 + 2 * i])))
  }

  /** Nothing is lost in print: every field can be read back. */
  lemma TextRoundTrip(u: Fields)
    requires u.Valid()
    ensures ReadText(Text(u)) == u
  {
    hide Hex, ReadHex, Pow16;
    Powers();
    HeadParts(u);
    ReadHexOfHex(u.timeLow, 8);
    ReadHexOfHex(u.timeMid, 4);
    ReadHexOfHex(u.timeHiAndVersion, 4);
    ReadHexOfHex(u.clockSeqHiAndReserved, 2);
    ReadHexOfHex(u.clockSeqLow, 2);
    forall i | 0 <= i < 6 ensures ReadText(Text(u)).node[i] == u.node[i] {
      NodeParts(u.node, 6, i);
      assert Text(u)[24 + 2 * i..26 + 2 * i] == NodeText(u.node, 6)[2 * i..2 * i + 2];
      ReadHexOfHex(u.node[i], 2);
    }
  }

  lemma HeadParts(u: Fields)
    requires u.Valid()
    ensures Text(u)[0..8] == Hex(u.timeLow, 8) && Text(u)[9..13] == Hex(u.timeMid, 4)
    ensures Text(u)[14..18] == Hex(u.timeHiAndVersion, 4)
    ensures Text(u)[19..21] == Hex(u.clockSeqHiAndReserved, 2) && Text(u)[21..23] == Hex(u.clockSeqLow, 2)
  {
    hide Hex, NodeText;
  }

  lemma {:induction false} NodeParts(node: seq<int>, n: nat, i: nat)
    requires i < n <= |node| && forall k :: 0 <= k < |node| ==> 0 <= node[k] < 256
    ensures NodeText(node, n)[2 * i..2 * i + 2] == Hex(node[i], 2)
  {
    hide Hex;
    if i < n - 1 {
      NodeParts(node, n - 1, i);
    }
  }

  /** All UUIDs of a run print differently, whatever clock sequences are drawn, as long as the readings of the
      clock lie after its epoch and below 2^60 and outpace the counter, from the second reading on. */
  lemma PrintedDistinct(readings: seq<int>, clockSeqs: seq<int>, node: seq<int>, i: nat, j: nat)
    requires |readings| > 1 ==> Outpaces(readings[1], 0, readings[2..])
    requires Within(readings, EPOCH_OFFSET, TWO60 - 1)
    requires |clockSeqs| == |Generated(AT_START, readings)| && forall c | c in clockSeqs :: 0 <= c < 0x1_0000
    requires |node| == 6 && forall k :: 0 <= k < 6 ==> 0 <= node[k] < 256
    requires i < j < |clockSeqs|
    ensures var ts := Generated(AT_START, readings);
      && EPOCH_OFFSET <= ts[i] < ts[j]
      && Formatted(clockSeqs[i], ts[i], node).Valid() && Formatted(clockSeqs[j], ts[j], node).Valid()
      && Text(Formatted(clockSeqs[i], ts[i], node)) != Text(Formatted(clockSeqs[j], ts[j], node))
  {
    var ts := Generated(AT_START, readings);
    GeneratedFromStart(readings);
    GeneratedWithin(AT_START, readings, EPOCH_OFFSET, TWO60 - 1);
    assert clockSeqs[i] in clockSeqs && clockSeqs[j] in clockSeqs;
    FormatRoundTrip(clockSeqs[i], ts[i], node);
    FormatRoundTrip(clockSeqs[j], ts[j], node);
    DifferModulo(ts[i], ts[j]);
    hide Formatted, Text;
    var u, u' := Formatted(clockSeqs[i], ts[i], node), Formatted(clockSeqs[j], ts[j], node);
    if Text(u) == Text(u') {
      TextRoundTrip(u);
      TextRoundTrip(u');
    }
  }

  /** What is printed for a timestamp. */
  ghost function Printed(clockSeq: int, timestamp: int, node: seq<int>): string
    requires 0 <= timestamp && 0 <= clockSeq < 0x1_0000
    requires |node| == 6 && forall k :: 0 <= k < 6 ==> 0 <= node[k] < 256
  {
    FormatRoundTrip(clockSeq, timestamp, node);
    Text(Formatted(clockSeq, timestamp, node))
  }

  ghost predicate Drawn(clockSeqs: seq<int>, n: nat) {
    |clockSeqs| == n && forall i :: 0 <= i < n ==> 0 <= clockSeqs[i] < 0x1_0000
  }

  /** Whatever clock sequences are drawn, no two timestamps print alike. */
  ghost predicate NeverRepeats(ts: seq<int>, node: seq<int>)
    requires forall i :: 0 <= i < |ts| ==> 0 <= ts[i]
    requires |node| == 6 && forall k :: 0 <= k < 6 ==> 0 <= node[k] < 256
  {
    forall clockSeqs | Drawn(clockSeqs, |ts|) ::
      forall i, j :: 0 <= i < j < |ts| ==> Printed(clockSeqs[i], ts[i], node) != Printed(clockSeqs[j], ts[j], node)
  }

  /** On a clock between its epoch and 2^60 that does not go back no UUID is ever printed twice exactly when the
      clock outpaces the counter, from the second reading on. */
  lemma PrintedDistinctIff(readings: seq<int>, node: seq<int>)
    requires |readings| > 1 ==> Forward(readings[1], readings[2..])
    requires Within(readings, EPOCH_OFFSET, TWO60 - 1)
    requires |node| == 6 && forall k :: 0 <= k < 6 ==> 0 <= node[k] < 256
    ensures Within(Generated(AT_START, readings), EPOCH_OFFSET, TWO60 - 1 + UUIDS_PER_TICK)
    ensures NeverRepeats(Generated(AT_START, readings), node)
       <==> |readings| > 1 ==> Outpaces(readings[1], 0, readings[2..])
  {
    var ts := Generated(AT_START, readings);
    GeneratedWithin(AT_START, readings, EPOCH_OFFSET, TWO60 - 1);
    DistinctIff(readings);
    hide Generated, Outpaces, Forward, Formatted, Text;
    if |readings| > 1 ==> Outpaces(readings[1], 0, readings[2..]) {
      forall clockSeqs, i, j | Drawn(clockSeqs, |ts|) && 0 <= i < j < |ts|
        ensures Printed(clockSeqs[i], ts[i], node) != Printed(clockSeqs[j], ts[j], node)
      {
        PrintedDistinct(readings, clockSeqs, node, i, j);
      }
    } else {
      SamePrinted(ts, node);
    }
  }

  lemma SamePrinted(ts: seq<int>, node: seq<int>)
    requires forall i :: 0 <= i < |ts| ==> 0 <= ts[i]
    requires |node| == 6 && forall k :: 0 <= k < 6 ==> 0 <= node[k] < 256
    requires !Distinct(ts)
    ensures !NeverRepeats(ts, node)
  {
    hide Printed;
    var zeros := seq(|ts|, _ => 0);
    assert Drawn(zeros, |ts|);
    var i, j :| 0 <= i < j < |ts| && ts[i] == ts[j];
    assert Printed(zeros[i], ts[i], node) == Printed(zeros[j], ts[j], node);
  }

  lemma DifferModulo(a: int, b: int)
    requires EPOCH_OFFSET <= a < b <= TWO60 - 1 + UUIDS_PER_TICK
    ensures a % TWO60 != b % TWO60
  {}

  // ---------------------------------------------------------------- snpuid

  const TOO_SMALL := "uuid string too small"

  /** Prints into a buffer of `size` characters, with the final NUL. */
  method Snpuid(str: array<char>, size: nat, u: Fields)
    requires u.Valid() && size <= str.Length
    modifies str
    ensures size >= 38 ==> str[..36] == Text(u) && str[36] == '\0'
    ensures 0 < size < 38 ==>
      var n := if size - 1 < |TOO_SMALL| then size - 1 else |TOO_SMALL|;
      str[..n] == TOO_SMALL[..n] && str[n] == '\0'
    ensures var end := if size >= 38 then 37 else if size > |TOO_SMALL| then |TOO_SMALL| + 1 else size;
      forall k :: end <= k < str.Length ==> str[k] == old(str[k])
  {
    hide Head, Hex;
    if size < 38 {
      if size > 0 {
        var n := if size - 1 < |TOO_SMALL| then size - 1 else |TOO_SMALL|;
        Print(str, 0, TOO_SMALL[..n]);
      }
      return;
    }
    var tmp := 0;
    Print(str, tmp, Head(u));
    tmp := tmp + 24;
    for i := 0 to 6
      invariant tmp == 24 + 2 * i
      invariant str[..tmp] == Head(u) + NodeText(u.node, i)
      invariant forall k :: 37 <= k < str.Length ==> str[k] == old(str[k])
    {
      Append(str, tmp, Hex(u.node[i], 2));
      tmp := tmp + 2;
    }
    str[tmp] := '\0';
  }

  /** Prints behind the text that is there already. */
  method Append(str: array<char>, at: nat, text: string)
    requires at + |text| < str.Length
    modifies str
    ensures str[..at + |text|] == old(str[..at]) + text
    ensures forall k :: at + |text| < k < str.Length ==> str[k] == old(str[k])
  {
    Print(str, at, text);
    assert str[..at + |text|] == str[..at] + str[at..at + |text|];
  }

  /** sprintf: the text and a NUL. */
  method Print(str: array<char>, at: nat, text: string)
    requires at + |text| < str.Length
    modifies str
    ensures str[at..at + |text|] == text && str[at + |text|] == '\0'
    ensures forall k :: 0 <= k < str.Length && !(at <= k <= at + |text|) ==> str[k] == old(str[k])
  {
    forall k | 0 <= k <= |text| {
      str[at + k] := if k < |text| then text[k] else '\0';
    }
  }
}
