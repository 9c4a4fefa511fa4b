# Verification of netperf's measurement core

netperf measures networks; this project models the algorithms that turn what it sees into the numbers it
reports, and proves what those numbers are worth. Each module follows one component of the source:

- `Counting`, `Histogram`, `LatencyHistogram`: the latency histogram. `LatencyHistogram.HistogramStruct` is the
  C structure with its rows of cells, its statistics and its ring of outstanding timestamps, updated in place. Two
  ghost logs record every difference ever added, and the invariant says that each cell counts the differences that
  belong in it. `Histogram` states what a percentile search finds in terms of those logs and proves its accuracy
  against the sorted samples.
- `Timestamps`, `TimestampRing`: timestamps, their difference, which borrows from the later one in place, and the
  circular queue of outstanding starts, refined to an unbounded queue over whole runs.
- `Moments`, `Confidence`: running sums, means and variances; the options `-i` and `-I`, the table of `confid()`,
  and the loop that repeats a test until its results are confident.
- `Doubles`, `DemoInterval`: interim results, with two timestamps whose pointers are swapped.
- `ControlCodec`, `ControlMessages`: control messages between hosts of different byte orders and float layouts,
  and their reassembly from a byte stream cut up arbitrarily.
- `RequestResponse`: the request/response test as two processes over two byte streams, with the burst window.
- `CpuCorrection`: the correction of CPU counters for interrupt time in 64-bit integer arithmetic.
- `BufferRing`: alignment, fill and linking of the ring of send buffers, and the distance between two uses of one.
- `Division`: the uniqueness of quotients and remainders, on which several of the proofs rest.
- `Uuid`: the version 1 UUID generator (RFC 4122), from the clock to the printed text.

Code that works in place is modelled by classes, arrays and loops; each such method is proved against a function of
its inputs or of the old state, and the properties are lemmas about that function. Integers are unbounded unless the
width matters (`CpuCorrection` wraps at 2^64, `ControlCodec` works on 32-bit words); reals stand for floating point,
without rounding, and `Doubles` adds the values that a division by zero produces. Clock readings, the arrivals on a
connection, the addresses malloc returns, random numbers, measurements and the square root are parameters.

## Where the code does not do what it promises

Each of these is proved together with the exact condition under which the promise holds.

- The histogram allows "any time to be recorded to within an accuracy of 10%" (src/hist.h:54). That is so for a percentile whose
  sample lies between 1 and 111,111,111 microseconds, and only then: from 100 seconds on the search reports 100
  seconds, and for a sample of 0 it takes its result for "not found" and divides by zero in the next row
  (`Histogram.WithinTenthIff`, `Histogram.PercentileAccuracy`, at the input `Histogram.ZeroSample`).
- A double is exchanged correctly between any two hosts only if both or neither are big-endian hosts with mixed
  float words, which `htond` and `ntohd` leave alone, or if its two words are the same (`ControlCodec.DoubleArrives`,
  at the input `ControlCodec.MixedFloatsGarble`).
- `fixup_request_n` with a count of -1 or -2, which means "everything" to its siblings, undoes all words from n + 2
  on (`ControlCodec.FixupOfEverything`); below -2 its loop starts before the array.
- The maximum of option `-i` (doc/netperf.texi:968-977) is reached by the SDP tests exactly when it equals the
  minimum: their loop compares with `<`, so they run at most iteration_max - 1 times, or iteration_min if that is more
  (`Confidence.MaximumReachedIff`, at the input `Confidence.MaximumMissed`).
- A test that is repeated until it is confident can stop early without being so. The margin of a series of zeros is
  0/0, and comparing it ends the loop or hides the margins compared before it: of the runs that end the loop those
  are confident in everything that counts whose series do not consist of zeros, and the confidence is a number unless
  the series compared last does (`Confidence.ConfidenceIff`, at the inputs `Confidence.UnconfidentStops`).
- The order client, server, requests of the request/response test needs messages of at least one byte in both
  directions (`RequestResponse.OrderedIff`); progress and the final counts do not.
- Interim results based on units stop for good after a tick that measured an interval of zero, and on a clock that
  does not go back only then (`DemoInterval.StallsIff`, `DemoInterval.StalledForever`, at the input
  `DemoInterval.StallExample`).
- The counter of the UUID clock covers 1024 ticks, the system clock advances by ten each microsecond: timestamps stop
  increasing exactly where ten or more were added for each microsecond of the next advance, and on a clock that does
  not go back exactly then one is issued twice (`Uuid.SystemClockRuns`, `Uuid.DistinctIff`, at the input
  `Uuid.ElevenInAMicrosecond`).
- Buffers are aligned exactly for powers of two (`BufferRing.AlignedIff`), and the default ring width fails when the
  socket buffer size is negative by a whole message or more (`BufferRing.DefaultWidth`, at the input
  `BufferRing.NoRingForSingleBytes`).

## Model

| member | source | states |
|---|---|---|
| Histogram.PercentileAccuracy | src/netlib.c:4413-4480 | for every rank, against the sorted samples: division by zero iff the ranked sample is 0, exact below 10 us, within a tenth of the sample below 100 s, saturated from there on |
| Histogram.WithinTenthIff | src/netlib.c:4413-4480 | what is reported is within a tenth of the ranked sample iff that lies between 1 and 111,111,111 us |
| Histogram.ZeroSample | src/netlib.c:4440-4442 | a single sample of 0 makes the search divide by zero |
| Histogram.PercentileMonotone | src/netlib.c:4413-4480 | a higher rank beyond the zero cell never reports a smaller time, across cells, rows and saturation |
| Histogram.PercentileUnique | src/netlib.c:4413-4480 | the search has one outcome for every rank |
| Histogram.RankedSample | src/netlib.c:4413-4424 | the cell at which the running counter reaches a rank is the cell of the sample of that rank |
| Histogram.InterpolateBounds | src/netlib.c:4421-4422 | interpolation stays within the closed range of its cell |
| Histogram.InterpolateEvenly | src/netlib.c:4421-4422 | the samples of a cell divide it evenly: which share of its width is reported for each of them, truncated |
| Histogram.Partition | src/netlib.c:4300-4358 | every difference is in a cell or ridiculous, and negative or in the total |
| LatencyHistogram.HistogramStruct.NewN | src/netlib.c:4227-4291 | an empty histogram with max_outstanding + 1 slots and distinct timestamps |
| LatencyHistogram.HistogramStruct.Add | src/netlib.c:4300-4358 | adds one difference to the log and keeps the invariant that ties cells, totals, sums and extremes to it; the ring is untouched |
| LatencyHistogram.HistogramStruct.AddCell | src/netlib.c:4326-4357 | the cascade of divisions by ten counts the difference in the cell of its decade |
| LatencyHistogram.HistogramStruct.Locate | src/netlib.c:4326-4357 | the cascade ends in the decade of the difference with ten times the value in the range of its cell |
| LatencyHistogram.HistogramStruct.SearchBucket | src/netlib.c:4413-4424 | the first cell of a row at which the running counter reaches the rank, the interpolated value there, and both counters afterwards; a result other than 0 is the percentile, and after a 0 the search is in the right state for the next row |
| LatencyHistogram.HistogramStruct.GetPercentile | src/netlib.c:4428-4480 | the percentile of the samples added, for the rank that the percentile of their number truncates to, including the division by zero |
| LatencyHistogram.HistogramStruct.ReportedPercentile | src/netlib.c:4428-4480 | for that rank, whichever way it is found: its bounds, and the accuracy of what is reported for the sample of that rank |
| LatencyHistogram.HistogramStruct.SumRow | src/netlib.c:4377-4383 | the sum of a row |
| LatencyHistogram.HistogramStruct.OutputRow | src/netlib.c:4360-4375 | ten columns, each the sum of a tenth of the row, which add up to the sum of the row |
| LatencyHistogram.HistogramStruct.Conservation | src/netlib.c:4300-4383 | all rows and ridiculous account for the total and the negative differences; upper rows are empty below cell 10 |
| LatencyHistogram.HistogramStruct.GetStats | src/netlib.c:4483-4498 | extremes, mean and variance of the counted differences |
| LatencyHistogram.HistogramStruct.StatisticsBounds | src/netlib.c:4315-4326 | min <= mean <= max, variance non-negative, zero iff all agree, at most (max-mean)(mean-min) |
| LatencyHistogram.HistogramStruct.TimestampStart | src/netlib.c:4596-4615 | the new state of the ring, even when it is full |
| LatencyHistogram.HistogramStruct.TimestampStopAdd | src/netlib.c:4617-4643 | adds the difference from the consumer's timestamp, or exits on an empty ring |
| LatencyHistogram.HistogramStruct.Purge | src/netlib.c:4293-4298 | forgets all outstanding timestamps |
| Timestamps.DeltaMicro | src/netlib.c:4574-4593 | the exact difference; the later timestamp is borrowed from in place and keeps its instant |
| Timestamps.BorrowKeepsInstant | src/netlib.c:4580-4584 | a borrow keeps the instant and leaves less than two million microseconds |
| TimestampRing.EmptyIffIndicesMeet | src/netlib.c:4596-4643 | producer equals consumer iff nothing is outstanding; the counter is their distance modulo the limit |
| TimestampRing.StartRefines | src/netlib.c:4604-4614 | a start appends to the queue; after one start too many a stop that follows it directly exits |
| TimestampRing.StopRefines | src/netlib.c:4627-4643 | a stop takes the oldest timestamp, and exits iff there is none |
| TimestampRing.RunRefines | src/netlib.c:4596-4643 | over all runs within the maximum: same differences, exits and leftovers as an unbounded queue |
| TimestampRing.StopsPairWithStarts | src/netlib.c:4596-4643 | without purges the j-th difference pairs the j-th stop with the j-th start |
| Moments.VarianceIsDeviation | src/netlib.c:4486-4492 | the computed variance is the mean squared deviation: never negative, zero iff all samples agree |
| Moments.VarianceBound | src/netlib.c:4486-4492 | the mean lies between the bounds of the samples and the variance is limited by its distances to them |
| Confidence.OptionsSound | src/netsh.c:744-789 | after any sequence of -i and -I: one run, or 3 <= min <= max <= 30 with a known level |
| Confidence.IterationsHonoured | src/netsh.c:744-767 | -i takes numbers of runs from 3 to 30 as given, limits all others, raises the maximum to the minimum and fills in a missing level and interval |
| Confidence.LevelHonoured | src/netsh.c:768-789 | -I accepts the levels 95 and 99, 100 times the interval is the width given, and single runs become 3 and 10 |
| Confidence.Options.SetIterations | src/netsh.c:744-767 | the settings after -i |
| Confidence.Options.SetLevel | src/netsh.c:768-789 | the settings after -I, or an exit |
| Confidence.Confid | src/netlib.c:4744-4818 | a positive entry for levels 95 and 99 and 1 to 30 degrees of freedom |
| Confidence.CriticalValues | src/netlib.c:4750-4818 | for 2, 4, 6, 8 and 10 degrees of freedom the entry is the two-sided quantile of Student's distribution for its level, rounded to three decimals |
| Confidence.CriticalValuesOrdered | src/netlib.c:4750-4818 | over the whole table entries decrease with the freedom, and those for 99 exceed those for 95 |
| Confidence.SeriesMoments | src/netlib.c:4846-4909 | each mean is the arithmetic mean of all results, each variance non-negative and zero iff they agree |
| Confidence.MarginIff | src/netlib.c:4911-4925 | for every mean: a margin is non-negative iff the mean is positive and 4 t^2 var <= interval^2 mean^2 (n-1), or the mean is negative, as for CPU that was not measured, and the interval is not negative or the opposite inequality holds; it is no number iff all results are zero |
| Confidence.MarginWidth | src/netlib.c:4911-4925 | the size of a margin: what is missing from it to the interval is the full width 2 t sqrt(var/(n-1)) of the confidence interval, relative to the mean |
| Confidence.ConfidenceIff | src/netlib.c:4911-4946 | over all runs and means: when the confidence is no number, when it is non-negative, and that where the loop is satisfied all series that count pass iff none of them consists of zeros |
| Confidence.UnconfidentStops | src/netlib.c:4911-4946 | two inputs on which the loop stops although the result is not confident |
| Confidence.MaximumReachedIff | src/nettest_sdp.c:310-311 | the largest number of runs is the requested maximum iff that is the minimum |
| Confidence.MaximumMissed | src/nettest_sdp.c:310-311 | with a minimum of 3 and a maximum of 10 a result that is never confident gets nine runs |
| Confidence.Statistics.InitStat | src/netlib.c:4701-4739 | clears all series and the confidence |
| Confidence.Statistics.CalculateConfidence | src/netlib.c:4820-4947 | extends all six series by one run and sets the margins and the confidence |
| Confidence.Statistics.RunTests | src/nettest_sdp.c:300-311 | stops after the first number of runs from iteration_min on whose confidence is not negative, or after max(iteration_min, iteration_max-1) runs, that many iff it stays negative; before that the confidence is at least zero iff the series compared last is not all zeros; only written entries of the table are read |
| Confidence.Statistics.RetrieveConfidentValues | src/netlib.c:4949-4964 | the reported values are the means of all runs |
| Confidence.ColumnFields | src/netlib.c:4820-4909 | which field of a run each of the six series is made of |
| DemoInterval.RunConserves | src/netlib.c:4090-4163 | over all runs: units displayed plus pending are units ticked, and intervals telescope from the first to the last swapped timestamp |
| DemoInterval.TickDisplays | src/netlib.c:4090-4142 | when a tick displays a result, and with which units and interval |
| DemoInterval.RunDisplays | src/netlib.c:4090-4142 | over all runs of ticks: every displayed interval is at least the desired one, and in mode 2 less than that is pending afterwards |
| DemoInterval.RetunedPace | src/netlib.c:4107 | the new threshold is the number of units that would have filled the desired interval at the measured pace |
| DemoInterval.ZeroIntervalStalls | src/netlib.c:4097-4107 | a call makes the unit threshold unreachable iff it measures an interval of zero |
| DemoInterval.StallsIff | src/netlib.c:4097-4107 | over all runs on a clock that does not go back: the threshold is unreachable afterwards iff some tick measured an interval of zero |
| DemoInterval.StalledForever | src/netlib.c:4097-4111 | from then on no tick displays anything |
| DemoInterval.StallExample | src/netlib.c:4097-4111 | a first tick within the microsecond of the start stops all interim results of a test |
| DemoInterval.Demo.Tick | src/netlib.c:4090-4142 | displays the pending units iff the time since the first timestamp reaches the interval and, in mode 1, the units reach the threshold, which is then retuned; swaps the timestamps, keeps the account, and does what a step of the run does |
| DemoInterval.Demo.Reset | src/netlib.c:4149-4163 | displays the pending units and the time since the first timestamp, and starts a new interval |
| DemoInterval.Demo.Final | src/netlib.c:4165-4180 | what is left is displayed, so that all ticked units are |
| ControlCodec.HtonlInMemory | src/netlib.c:2524-2526 | converting a word mirrors its bytes on a little-endian host and nothing else |
| ControlCodec.ConvertWords | src/netlib.c:2524-2526 | exactly the words of the given range are converted |
| ControlCodec.RequestArrives | src/netlib.c:2481-2548 | for any two byte orders the first n + 2 words, or all for a negative n, keep their numbers, word 1 is the affinity, later bytes are untouched |
| ControlCodec.ResponseArrives | src/netlib.c:2582-2643 | the same for responses |
| ControlCodec.BigEndianOnTheWire | src/netlib.c:2524-2526 | the bytes sent for a converted word are its number, most significant first |
| ControlCodec.FixupUndoes | src/netlib.c:2668-2689 | receiving all and fixing up from n equals receiving n |
| ControlCodec.FixupOfEverything | src/netlib.c:2668-2689 | for a count of -1 or -2 this holds only on big-endian hosts |
| ControlCodec.Htond | src/netlib.c:680-727 | exchanges the words of a double on a little-endian host with plain floats |
| ControlCodec.Ntohd | src/netlib.c:631-678 | the same exchange on the way back |
| ControlCodec.DoubleArrives | src/netlib.c:631-727 | a double at any word arrives bit for bit iff both or neither host is big-endian with mixed floats, or its two words are the same |
| ControlCodec.MixedFloatsGarble | src/netlib.c:631-727 | 1.0 arrives with its words exchanged from a big-endian host with mixed floats at one without |
| ControlMessages.Endpoint.SendRequestN | src/netlib.c:2481-2548 | the bytes sent, which also stay in the request |
| ControlMessages.Endpoint.SendResponseN | src/netlib.c:2582-2643 | the bytes sent |
| ControlMessages.Endpoint.FixupRequestN | src/netlib.c:2668-2689 | converts the words from n + 2 on |
| ControlMessages.Endpoint.Receive | src/netlib.c:2727-2755 | reads the next message's bytes and no byte after them, ending at the first failure |
| ControlMessages.Endpoint.RecvRequestTimedN | src/netlib.c:2696-2817 | returns the length iff the message is whole, 0 at a shutdown, -1 on an error, with the request, affinity and connection afterwards |
| ControlMessages.AffinityArrives | src/netlib.c:2481-2817 | every 32-bit affinity, -1 among them, is the affinity the receiver reads |
| ControlMessages.Endpoint.RecvResponseTimedN | src/netlib.c:2852-2989 | the response is the next message converted, or the program exits |
| ControlMessages.GatherTakesPrefix | src/netlib.c:2727-2755 | a message is whole iff enough bytes are left, else the status is what ends the stream; it is the next bytes of the stream, and the rest stays |
| ControlMessages.StreamDecodes | src/netlib.c:2696-2817 | any chunking of any sequence of messages decodes into those messages in order |
| ControlMessages.Endpoint.ProcessRequests | src/netserver.c:736-741 | repeated calls of the receiving method return exactly the messages of the stream, in order, and leave no bytes before the failure that ends them |
| RequestResponse.RunKeepsInv | src/nettest_sdp.c:2621-2748 | every interleaving and chunking keeps counters, window and pending bytes consistent |
| RequestResponse.BurstWindow | src/nettest_sdp.c:2636-2725 | outstanding is sent minus answered, bounded by the window and the burst at the loop head, one more while receiving |
| RequestResponse.OutstandingAfterTransaction | src/nettest_sdp.c:2706-2725 | after k transactions min(k+1, burst) are outstanding and the window is min(k+2, burst); for bursts of one and none, one and none are |
| RequestResponse.OrderedIff | src/nettest_sdp.c:2621-2748 | client-completed <= server-completed <= requests sent in every reachable state iff both sizes are positive |
| RequestResponse.NeverStuck | src/nettest_sdp.c:3252-3331 | some step is possible until both sides finish |
| RequestResponse.EveryRunFinishes | src/nettest_sdp.c:3252-3360 | every run is bounded and can only end with both counters at N, N*(request+response) bytes reported and the surplus requests unread |
| CpuCorrection.CorrectCases | src/netcpu_kstat10.c:463-574 | which outcome occurs when; where no product the code forms overflows nothing wraps |
| CpuCorrection.SmallCountersFit | src/netcpu_kstat10.c:499-518 | no product overflows where the sum of the counters, scaled, fits in 64 bits |
| CpuCorrection.SharesSum | src/netcpu_kstat10.c:499-518 | the shares sum to at most the interrupt time and fall short by less than 3 + 2I/100000 |
| CpuCorrection.CorrectionAccuracy | src/netcpu_kstat10.c:499-574 | no underflow, the corrected total, and the rounding error of the idle fraction against idle*(T-I)/T^2 |
| CpuCorrection.CorrectedInProportion | src/netcpu_kstat10.c:499-536 | each corrected counter is its exact proportion of the time without interrupts, up to rounding |
| CpuCorrection.UtilisationAccuracy | src/netcpu_kstat10.c:499-595 | what is reported for a CPU is 100 less its share of idle time without interrupts, up to rounding; 0 for a CPU idle throughout without interrupts, 100 times the factor for one never idle |
| CpuCorrection.DeltaExact | src/netcpu_kstat10.c:444-451 | differences of counters are exact unless they wrap, and right modulo 2^64 |
| CpuCorrection.FactorRescales | src/netcpu_kstat10.c:407-413 | the factor times the elapsed time is the time the library measured |
| CpuCorrection.CalcCpuUtil | src/netcpu_kstat10.c:407-607 | all CPUs: counters, utilisations and their mean, or the first failing CPU with the entries before it, and nothing written after it |
| CpuCorrection.AverageInRange | src/netcpu_kstat10.c:592-605 | the average lies between 0 and 100 percent of the correction factor |
| BufferRing.InsideAllocation | src/netlib.c:1566-1618 | aligned and offset, a buffer lies inside its allocation, for every alignment |
| BufferRing.AlignedIff | src/netlib.c:1610-1618 | the mask aligns every allocation, before the offset is added, iff the alignment is a power of two |
| BufferRing.AllocateBufferRing | src/netlib.c:1548-1658 | one cycle of width distinct elements, each with an aligned, filled buffer |
| BufferRing.FillBuffer | src/netlib.c:1637-1648 | the fill continues from the cursor and wraps after the NUL |
| BufferRing.ContentsPeriodic | src/netlib.c:1637-1648 | the buffers together hold one running repetition of "netperf" and a NUL |
| BufferRing.SendMessages | src/nettest_sdp.c:535-595 | the number of messages and which buffer each of them uses |
| BufferRing.ReuseIff | src/nettest_sdp.c:358-371 | between two uses of a buffer more than lss_size bytes are sent iff the ring is larger than lss_size |
| BufferRing.DefaultWidth | src/nettest_sdp.c:338-371 | sizes and widths asked for are respected; by default the ring has at least two buffers, is larger than lss_size, with the exact exception, and no wider than that needs |
| BufferRing.NoRingForSingleBytes | src/nettest_sdp.c:358-361 | for single bytes and an unknown socket buffer size the default width is 0 |
| Uuid.UuidClock.GetCurrentTime | src/net_uuid.c:265-296 | the timestamp of the next call and the readings it uses |
| Uuid.NextExceedsIff | src/net_uuid.c:279-295 | a timestamp exceeds the last one iff the clock stands still with room in the counter, or its first new reading is beyond what the counter reached |
| Uuid.TickCapacity | src/net_uuid.c:279-295 | a standing clock is good for 1024 more timestamps |
| Uuid.IncreaseIff | src/net_uuid.c:265-296 | over all runs timestamps strictly increase iff every new reading is beyond the last one by more than its repetitions, up to 1024 |
| Uuid.GeneratedFromStart | src/net_uuid.c:265-296 | the same from the start of the program, whose first reading is thrown away |
| Uuid.PacedOutpaces | src/net_uuid.c:265-296 | readings more than 1024 ticks apart are such a clock |
| Uuid.MicrosecondClock | src/net_uuid.c:159-171 | on the system clock the timestamp of any other reading is new iff fewer than ten were added for each microsecond since, and repeats the last one iff exactly ten |
| Uuid.EpochOffset | src/net_uuid.c:159-171 | the offset is the time from 15 October 1582 to 1 January 1970 in ticks |
| Uuid.SystemClockRuns | src/net_uuid.c:159-171 | over all runs on the system clock timestamps increase iff no microsecond is read ten times or more for each microsecond of the advance that follows |
| Uuid.ElevenInAMicrosecond | src/net_uuid.c:159-171 | eleven UUIDs in a microsecond and one in the next: two timestamps are equal |
| Uuid.DistinctIff | src/net_uuid.c:265-296 | on a clock that does not go back no timestamp is issued twice iff the clock outpaces the counter |
| Uuid.NetperfUuid.FormatV1 | src/net_uuid.c:321-335 | fills in the fields |
| Uuid.FormatRoundTrip | src/net_uuid.c:321-335 | version 1, the variant, and timestamp, clock sequence and node can be read back |
| Uuid.UuidCreate | src/net_uuid.c:338-354 | a UUID of the next timestamp, or still spinning |
| Uuid.TextShowsVersion | src/net_uuid.c:236-262 | 36 characters with version, variant and hyphens in their places |
| Uuid.TextRoundTrip | src/net_uuid.c:236-262 | all six fields can be read back from the printed form |
| Uuid.PrintedDistinct | src/net_uuid.c:236-296 | all UUIDs of a run on a clock that outpaces the counter print differently whatever clock sequences are drawn |
| Uuid.PrintedDistinctIff | src/net_uuid.c:236-296 | on a clock that does not go back no UUID can be printed twice iff the clock outpaces the counter |
| Uuid.Snpuid | src/net_uuid.c:236-262 | the text and a NUL, or the truncated error message, and nothing else of the buffer |

## Left out

- Timestamps.DeltaMicro: differences that overflow a 32-bit int (about 35 minutes) are not wrapped.
- ControlCodec.WordCount: the overflow of 2 + n for the largest n is not modelled.
- LatencyHistogram.HistogramStruct.GetPercentile: negative percentiles are excluded; the conversion to int truncates towards zero.
- LatencyHistogram.HistogramStruct.GetStats: returns the variance; its square root is not taken.
- ControlCodec.FixupOfEverything: counts below -2 are excluded; the loop in C then reads and writes before the array.
- Confidence.CriticalValues: for odd degrees of freedom Student's distribution needs the arc tangent, which is not modelled; these entries and those above ten degrees, which the ten runs at most of a plain `-I` do not reach, are only ordered.
- BufferRing.AllocateBufferRing: for a width below one the assertion of src/netlib.c:1584 stops the program, which the model does not; it returns no ring, as the code does where assertions are compiled out. Filling from a file is not modelled, and an alignment below one is excluded: it would put the buffer at address zero.
- RequestResponse.RunKeepsInv: the two processes are a state machine on values, one step for each send, receive and piece of bookkeeping; the contents of messages, their buffers, timed test endings and interrupted calls are not part of it.
- Uuid.FormatV1: masks and shifts of unsigned integers are written as remainders and divisions.
- DemoInterval.Demo.Tick: signed zeros are not distinguished; the printed form of an interim result is not modelled.
- Floating-point rounding, everywhere, and the float arithmetic of HIST_add in particular.
- HIST_clear on a histogram in use, and the report branch for old histograms, which changes cells while printing.
- The other timestamp representations (gethrtime, get_hrt, Windows).
- Sockets, select timeouts, name lookup, signals, timers, and the establishment of connections.
- The other CPU, driver, routing, slot, system and security back ends, all other tests, and the remaining options.
