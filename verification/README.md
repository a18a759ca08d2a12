# Stopwatch_res: a resolution-parameterised stopwatch

This project models the stopwatch used by the g3log benchmark program. The C++
class template `Stopwatch_res<resolution>` keeps two steady-clock time points,
`started_` and `stopped_`. It has three operations:

- `reset` sets both time points to the current time.
- `stop` moves only `stopped_` to the current time.
- `elapsed(stop_now)` optionally stops, then returns `stopped_ - started_` as an
  `int64_t` count in the template's unit.

`std::chrono::duration_cast` does the conversion, so sub-unit time is truncated
toward zero. The template is instantiated at four resolutions: nanoseconds,
microseconds, milliseconds and seconds. The plain `Stopwatch` defaults to
nanoseconds. Each instantiation has a fixed unit suffix string.

The model replaces the steady clock with an explicit reading. Every operation
that would call `steady_clock::now()` takes a `now: Tick` argument. A `Tick`
counts nanoseconds since the clock's epoch and lies in `0 .. INT64_MAX`. Under
that bound, `stopped - started` and every count that `elapsed` returns fit in
`int64_t`, and the model proves it.

- `chrono.dfy` (module `Chrono`): the `Resolution` datatype and its decimal
  period exponents. It also holds truncating division (C++ `/`), and
  `DurationCast` as defined in section [time.duration.cast] of ISO C++: an exact
  multiply toward a finer unit, a truncating divide toward a coarser one.
  Finally, it has the lemmas relating the units.
- `stopwatch.dfy` (module `StopwatchRes`): the immutable `Stopwatch` record
  (resolution, started, stopped) and the pure functions `Create`, `Reset`,
  `Stop`, `Elapsed`, `ElapsedNow` and `Units`, plus lemmas about one stopwatch.
- `trace.dfy` (module `ClockTrace`): runs a sequence of calls against a trace of
  clock readings. It proves that a non-decreasing clock keeps
  `started <= stopped`, so that no count is ever negative.

The template parameter becomes a `resolution` field of the record. It is
chosen at construction and never changed by any operation.

The code does not enforce `started <= stopped`. That ordering holds only because
the steady clock never goes backward (`ClockTrace.RunKeepsOrder`). Given an
earlier reading, `Elapsed` returns a negative count, truncated toward zero as
`duration_cast` does.

## Model

| member | source | states |
|---|---|---|
| Chrono.TruncDiv | src/main.cpp:44 | the quotient has the dividend's sign and the largest magnitude whose multiple of the divisor does not exceed the dividend's magnitude (truncation toward zero) |
| Chrono.TruncDivUnique | src/main.cpp:44 | any integer meeting those truncation bounds is the truncated quotient, so the bounds fully characterise the conversion |
| Chrono.TruncDivNested | src/main.cpp:44 | truncating by m and then by n gives the same result as truncating once by m * n |
| Chrono.DurationCast | src/main.cpp:44 | converting a count between two of the four units gives the duration in nanoseconds divided by the target unit's length, truncated toward zero, in either direction |
| Chrono.CastChain | src/main.cpp:67-70 | converting through an intermediate unit equals converting directly, unless the intermediate unit is coarser than both ends |
| Chrono.RefineRoundTrip | src/main.cpp:67-70 | a count converted to a finer unit and back is unchanged |
| Chrono.CoarsenRoundTrip | src/main.cpp:44 | a count converted to a coarser unit and back keeps its sign, moves toward zero, and loses less than one coarse unit |
| Chrono.CastMonotone | src/main.cpp:44 | conversion never turns a larger count into a smaller one |
| Chrono.TicksPerUnit | src/main.cpp:67-70 | one unit lasts 1 ns for nanoseconds, 1000 ns for microseconds, 10^6 ns for milliseconds and 10^9 ns for seconds, and never less than one clock tick |
| Chrono.UnitsPerSecond | src/main.cpp:95-110 | one second holds 10^9 nanoseconds, 10^6 microseconds, 1000 milliseconds and 1 second |
| Chrono.UnitsPerSecondTimesTicks | src/main.cpp:95-110 | the number of units per second (the reciprocal of freq()) times the unit's length in nanoseconds is exactly 10^9 |
| StopwatchRes.Create | src/main.cpp:22-30 | a new stopwatch has the chosen resolution, and both readings equal the construction-time reading |
| StopwatchRes.Reset | src/main.cpp:26-30 | both readings become the current reading and the window is empty; the resolution is kept |
| StopwatchRes.Stop | src/main.cpp:31-34 | only the stop reading changes, to the current reading; the start reading and the resolution are kept |
| StopwatchRes.Elapsed | src/main.cpp:39-45 | elapsed(false) leaves the stopwatch unchanged, and elapsed(true) stops at `now` first; the count is the window in whole units, truncated toward zero, with the window's sign |
| StopwatchRes.ElapsedNow | src/main.cpp:47-50 | elapsed() leaves the stopwatch stopped at `now` and returns what a non-stopping read of that stopped stopwatch returns |
| StopwatchRes.CountOf | src/main.cpp:44 | the duration_cast of a 64-bit tick window to the unit is the truncated quotient by the unit's length, and it fits int64_t |
| StopwatchRes.Units | src/main.cpp:74-93 | every unit suffix is at least two bytes long, starts with a space and ends with 's' |
| StopwatchRes.UnitsDistinct | src/main.cpp:74-93 | different resolutions have different suffixes |
| StopwatchRes.CreateReadsZero | src/main.cpp:22-45 | a freshly constructed stopwatch reads 0 without stopping, at every resolution, and reading does not change it |
| StopwatchRes.ResetDiscardsWindow | src/main.cpp:26-30 | after reset, two stopwatches of the same resolution are identical whatever windows they held, and both equal a freshly constructed one |
| StopwatchRes.StopKeepsLastReading | src/main.cpp:31-34 | stopping twice is the same as stopping once at the later reading |
| StopwatchRes.ReadIsRepeatable | src/main.cpp:39-45 | a second elapsed(false) returns the same count and stopwatch as the first |
| StopwatchRes.ElapsedNowNonDecreasing | src/main.cpp:39-50 | with readings at or after the start, successive elapsed() calls return non-negative, non-decreasing counts |
| StopwatchRes.CoarserReadingTruncatesFiner | src/main.cpp:44 | the same window read at a coarser resolution is the finer reading converted to the coarser unit |
| StopwatchRes.NextUnitDividesBy1000 | src/main.cpp:67-70 | the µs count is the ns count divided by 1000 truncated toward zero, and likewise for ms from µs and s from ms |
| ClockTrace.Run | src/main.cpp:26-50 | a run of calls keeps the resolution and returns exactly one count per elapsed call |
| ClockTrace.RunKeepsOrder | src/main.cpp:18-44 | on a non-decreasing clock trace, reset and stop preserve started <= stopped (stopped never passes the latest reading), so every count returned is non-negative |
| ClockTrace.ReadsOnlyRunIsConstant | src/main.cpp:39-45 | a run of elapsed(false) calls leaves the stopwatch unchanged and returns the same count every time |
| ClockTrace.ResetThenElapsed | src/main.cpp:184-185 | reset followed by elapsed() returns the truncated gap between the two readings, which is 0 when the gap is less than one unit |
| ClockTrace.DefaultTimerIsExact | src/main.cpp:71-72 | the default stopwatch counts nanoseconds, so reset followed by elapsed() returns exactly the gap between the two readings, with nothing truncated |

## Left out

- `now()` (src/main.cpp:35-38) and the steady clock itself: each clock reading is an explicit `Tick` argument, and the clock's monotonicity is a precondition on a trace (`ClockTrace.Monotone`).
- The steady clock's tick is taken to be one nanosecond. That is the standard libraries' choice for `steady_clock::duration`, but the C++ standard leaves the tick implementation-defined.
- Negative steady-clock readings are outside `Tick`. The monotonic clock counts up from its epoch, and excluding them keeps `stopped - started` from overflowing int64.
- Chrono.DurationCast: converting toward a finer unit multiplies without modelling int64 overflow. The stopwatch only converts from nanoseconds toward coarser units, where no overflow occurs, and `StopwatchRes.CountOf` proves its result fits int64.
- `describe` (src/main.cpp:52-61): stream output of implementation-defined clock periods.
- `freq()` (src/main.cpp:95-110) returns a floating-point value. Only its reciprocal, the integer `Chrono.UnitsPerSecond`, is modelled.
- The floating-point averages and unit scalings that `main` logs (src/main.cpp:179, 193-203).
- `thread_func`, the thread launch and the join (src/main.cpp:114-125, 155-166): concurrency, logging and sleeps.
- g3log setup, the rotating-file sink and its `std::future` (src/main.cpp:135-145): foreign library calls.
- The logging loops and timed scenarios of `main` (src/main.cpp:149-153, 173-203), other than the reset-then-elapsed pattern in `ClockTrace.ResetThenElapsed`. They only log, and they depend on real sleeps.
