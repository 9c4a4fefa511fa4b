/** Wall-clock timestamps and their difference, which borrows from the later one in place. */
module Timestamps {

  /** A `struct timeval`. */
  datatype TimeVal = TimeVal(sec: int, usec: int) {
    function Micros(): int { sec * 1_000_000 + usec }

    /** What gettimeofday() returns. */
    predicate Normalized() { 0 <= usec < 1_000_000 }
  }

  /** What a difference from `begin` leaves in `end`. */
  function Borrowed(begin: TimeVal, end: TimeVal): TimeVal {
    if end.usec < begin.usec then TimeVal(end.sec - 1, end.usec + 1_000_000) else end
  }

  class Timestamp {
    var sec: int
    var usec: int

    ghost function Value(): TimeVal
      reads this
    {
      TimeVal(sec, usec)
    }

    constructor ()
    {
      sec, usec := 0, 0;
    }

    /** HIST_timestamp: `now` is the reading of the clock. */
    method Take(now: TimeVal)
      modifies this
      ensures Value() == now
    {
      sec, usec := now.sec, now.usec;
    }
  }

  method DeltaMicro(begin: Timestamp, end: Timestamp) returns (usecs: int)
    modifies end
    ensures usecs == old(end.Value()).Micros() - old(begin.Value()).Micros()
    ensures end.Value() == Borrowed(old(begin.Value()), old(end.Value()))
    ensures end.Value().Micros() == old(end.Value()).Micros()
  {
    if end.usec < begin.usec {
      end.usec := end.usec + 1_000_000;
      end.sec := end.sec - 1;
    }
    usecs := end.usec - begin.usec;
    var secs := end.sec - begin.sec;
    usecs := usecs + secs * 1_000_000;
  }

  /** A borrow never changes the instant, and keeps a freshly read clock below two seconds' worth of
      microseconds, whatever was borrowed into the earlier timestamp. */
  lemma BorrowKeepsInstant(begin: TimeVal, end: TimeVal)
    requires end.Normalized()
    ensures Borrowed(begin, end).Micros() == end.Micros()
    ensures 0 <= Borrowed(begin, end).usec < 2_000_000
    ensures !Borrowed(begin, end).Normalized() <==> end.usec < begin.usec
  {}
}
