/**
  The stopwatch: two steady-clock readings, `started` and `stopped`, and a
  resolution that fixes the unit `elapsed` reports in.

  The steady clock is not read here. Every operation that reads the clock
  takes the reading as its `now` argument instead, so the behaviour is a
  pure function of the readings the caller supplies.
 */
module StopwatchRes {
  import opened Chrono

  /**
    A steady-clock reading: nanoseconds since the clock's epoch, held in the
    clock's signed 64-bit representation. The monotonic clock counts up from
    its epoch, so readings are never negative; with both ends of a window in
    this range their difference always fits in 64 bits.
   */
  type Tick = t: int | 0 <= t <= MaxInt64

  /** One byte of a std::string. */
  type Byte = b: int | 0 <= b < 256

  datatype Stopwatch = Stopwatch(resolution: Resolution, started: Tick, stopped: Tick)

  /** What elapsed returns: the count, together with the stopwatch afterwards. */
  datatype Reading = Reading(watch: Stopwatch, count: Int64)

  /** A time point that has not been assigned yet holds the clock's epoch. */
  const Epoch: Tick := 0

  /** The width of the window between the two readings, in clock ticks. */
  function Window(sw: Stopwatch): int {
    sw.stopped - sw.started
  }

  /** The constructor: both readings start at the epoch and are then reset. */
  function Create(resolution: Resolution, now: Tick): (sw: Stopwatch)
    ensures sw.resolution == resolution
    ensures sw.started == now && sw.stopped == now
  {
    Reset(Stopwatch(resolution, Epoch, Epoch), now)
  }

  /** reset(): both readings become the current time. */
  function Reset(sw: Stopwatch, now: Tick): (r: Stopwatch)
    ensures r.resolution == sw.resolution
    ensures r.started == now && r.stopped == now
    ensures Window(r) == 0
  {
    sw.(started := now, stopped := now)
  }

  /** stop(): only the stop reading becomes the current time. */
  function Stop(sw: Stopwatch, now: Tick): (r: Stopwatch)
    ensures r.resolution == sw.resolution
    ensures r.started == sw.started
    ensures r.stopped == now
  {
    sw.(stopped := now)
  }

  /**
    elapsed(stop_now): optionally stop at `now`, then report the window in
    whole units of the stopwatch's resolution, truncated toward zero. The
    clock reading is only used when `stopNow` holds.
   */
  function Elapsed(sw: Stopwatch, stopNow: bool, now: Tick): (r: Reading)
    ensures !stopNow ==> r.watch == sw
    ensures stopNow ==>
      (r.watch.resolution == sw.resolution && r.watch.started == sw.started && r.watch.stopped == now)
    ensures var d, k := Window(r.watch), TicksPerUnit(sw.resolution);
      && (d >= 0 ==> r.count >= 0)
      && (d <= 0 ==> r.count <= 0)
      && Abs(r.count) * k <= Abs(d) < Abs(r.count) * k + k
  {
    var w := if stopNow then Stop(sw, now) else sw;
    var c := CountOf(Window(w), sw.resolution);
    Reading(w, c)
  }

  /** elapsed() without an argument. */
  function ElapsedNow(sw: Stopwatch, now: Tick): (r: Reading)
    ensures r.watch == Stop(sw, now)
    ensures r.count == Elapsed(Stop(sw, now), false, now).count
  {
    Elapsed(sw, true, now)
  }

  /**
    duration_cast of a window of clock ticks to the stopwatch's unit. The
    result's magnitude never exceeds the window's, so it fits the int64_t
    elapsed returns.
   */
  function CountOf(ticks: int, resolution: Resolution): (c: Int64)
    requires Abs(ticks) <= MaxInt64
    ensures c == TruncDiv(ticks, TicksPerUnit(resolution))
  {
    var c := DurationCast(ticks, Nanoseconds, resolution);
    assert TicksPerUnit(Nanoseconds) == 1;
    MulLe(1, TicksPerUnit(resolution), Abs(c));
    c
  }

  /**
    units(): the suffix written after a count. These are the bytes of the
    string literals as they stand in the source; the microsecond suffix holds
    the two-byte UTF-8 form of U+00B5 encoded a second time (C3 82 C2 B5).
   */
  function Units(resolution: Resolution): (u: seq<Byte>)
    ensures 2 <= |u|
    ensures u[0] == 0x20 && u[|u| - 1] == 0x73
  {
    match resolution
    case Nanoseconds => [0x20, 0x6E, 0x73]
    case Microseconds => [0x20, 0xC3, 0x82, 0xC2, 0xB5, 0x73]
    case Milliseconds => [0x20, 0x6D, 0x73]
    case Seconds => [0x20, 0x73]
  }

  // ---------------------------------------------------------------------
  // Properties of a single stopwatch
  // ---------------------------------------------------------------------

  /** A freshly constructed stopwatch reads zero without stopping, at every resolution. */
  lemma CreateReadsZero(resolution: Resolution, created: Tick, later: Tick)
    ensures Elapsed(Create(resolution, created), false, later).count == 0
    ensures Elapsed(Create(resolution, created), false, later).watch == Create(resolution, created)
  {
  }

  /** reset keeps nothing of the earlier window: only the resolution survives. */
  lemma ResetDiscardsWindow(a: Stopwatch, b: Stopwatch, now: Tick)
    requires a.resolution == b.resolution
    ensures Reset(a, now) == Reset(b, now)
    ensures Reset(a, now) == Create(a.resolution, now)
  {
  }

  /** Of several stops, only the last one counts. */
  lemma StopKeepsLastReading(sw: Stopwatch, first: Tick, second: Tick)
    ensures Stop(Stop(sw, first), second) == Stop(sw, second)
  {
  }

  /** Reading without stopping changes nothing, so a second reading agrees with the first. */
  lemma ReadIsRepeatable(sw: Stopwatch, t1: Tick, t2: Tick)
    ensures var r1 := Elapsed(sw, false, t1);
      Elapsed(r1.watch, false, t2) == r1
  {
  }

  /**
    With the clock moving forward, successive elapsed() calls without a reset
    never report less than before, and never report a negative count.
   */
  lemma ElapsedNowNonDecreasing(sw: Stopwatch, t1: Tick, t2: Tick)
    requires sw.started <= t1 <= t2
    ensures var r1 := ElapsedNow(sw, t1);
      0 <= r1.count <= ElapsedNow(r1.watch, t2).count
  {
    CastMonotone(t1 - sw.started, t2 - sw.started, Nanoseconds, sw.resolution);
  }

  /**
    The same window read at a coarser resolution is the finer reading
    converted to the coarser unit: e.g. the microsecond count is the
    nanosecond count divided by 1000, truncated toward zero.
   */
  lemma CoarserReadingTruncatesFiner(sw: Stopwatch, fine: Resolution, coarse: Resolution, now: Tick)
    requires NoFinerThan(coarse, fine)
    ensures Elapsed(sw.(resolution := coarse), false, now).count
      == DurationCast(Elapsed(sw.(resolution := fine), false, now).count, fine, coarse)
  {
    CastChain(Window(sw), Nanoseconds, fine, coarse);
  }

  /** Each resolution is 1000 times finer than the next coarser one. */
  lemma NextUnitDividesBy1000(sw: Stopwatch, now: Tick)
    ensures var ns := Elapsed(sw.(resolution := Nanoseconds), false, now).count;
      var us := Elapsed(sw.(resolution := Microseconds), false, now).count;
      var ms := Elapsed(sw.(resolution := Milliseconds), false, now).count;
      var s := Elapsed(sw.(resolution := Seconds), false, now).count;
      us == TruncDiv(ns, 1000) && ms == TruncDiv(us, 1000) && s == TruncDiv(ms, 1000)
  {
    assert Pow10(3) == 1000;
    CoarserReadingTruncatesFiner(sw, Nanoseconds, Microseconds, now);
    CastToCoarser(Elapsed(sw.(resolution := Nanoseconds), false, now).count, Nanoseconds, Microseconds);
    CoarserReadingTruncatesFiner(sw, Microseconds, Milliseconds, now);
    CastToCoarser(Elapsed(sw.(resolution := Microseconds), false, now).count, Microseconds, Milliseconds);
    CoarserReadingTruncatesFiner(sw, Milliseconds, Seconds, now);
    CastToCoarser(Elapsed(sw.(resolution := Milliseconds), false, now).count, Milliseconds, Seconds);
  }

  /** The suffix is a fixed fact of the resolution: different resolutions have different suffixes. */
  lemma UnitsDistinct(a: Resolution, b: Resolution)
    requires a != b
    ensures Units(a) != Units(b)
  {
  }
}
