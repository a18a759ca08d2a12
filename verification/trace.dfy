/**
  A stopwatch driven by a sequence of calls against a trace of steady-clock
  readings: call i sees reading i. The steady clock never goes backward, so
  the interesting traces are the non-decreasing ones.
 */
module ClockTrace {
  import opened Chrono
  import SW = StopwatchRes

  /** The calls a client makes on a stopwatch. */
  datatype Call = Reset | Stop | Elapsed(stopNow: bool)

  /** The stopwatch after a run, and the counts the elapsed calls returned, in order. */
  datatype Outcome = Outcome(watch: SW.Stopwatch, readings: seq<Int64>)

  /** The readings never decrease, as the steady clock guarantees. */
  predicate Monotone(clock: seq<SW.Tick>) {
    forall i, j :: 0 <= i < j < |clock| ==> clock[i] <= clock[j]
  }

  /** The window is well formed: stop came no earlier than start. */
  predicate Ordered(sw: SW.Stopwatch) {
    sw.started <= sw.stopped
  }

  function CountReads(calls: seq<Call>): nat {
    if |calls| == 0 then 0
    else (if calls[0].Elapsed? then 1 else 0) + CountReads(calls[1..])
  }

  /** One call at clock reading `now`. */
  function Step(sw: SW.Stopwatch, call: Call, now: SW.Tick): (o: Outcome)
    ensures o.watch.resolution == sw.resolution
    ensures |o.readings| == (if call.Elapsed? then 1 else 0)
  {
    match call
    case Reset => Outcome(SW.Reset(sw, now), [])
    case Stop => Outcome(SW.Stop(sw, now), [])
    case Elapsed(stopNow) =>
      var r := SW.Elapsed(sw, stopNow, now);
      Outcome(r.watch, [r.count])
  }

  /** The calls in order, call i at clock reading i. */
  function Run(sw: SW.Stopwatch, calls: seq<Call>, clock: seq<SW.Tick>): (o: Outcome)
    requires |calls| == |clock|
    ensures o.watch.resolution == sw.resolution
    ensures |o.readings| == CountReads(calls)
    decreases |calls|
  {
    if |calls| == 0 then Outcome(sw, [])
    else
      var first := Step(sw, calls[0], clock[0]);
      var rest := Run(first.watch, calls[1..], clock[1..]);
      Outcome(rest.watch, first.readings + rest.readings)
  }

  /**
    On a non-decreasing clock, reset and stop keep `started <= stopped`, and
    so every count elapsed returns is non-negative. The stopwatch must not
    have been stopped later than the first reading of the trace.
   */
  lemma {:induction false} RunKeepsOrder(sw: SW.Stopwatch, calls: seq<Call>, clock: seq<SW.Tick>)
    requires |calls| == |clock|
    requires Ordered(sw)
    requires Monotone(clock)
    requires |clock| > 0 ==> sw.stopped <= clock[0]
    ensures var o := Run(sw, calls, clock);
      && Ordered(o.watch)
      && (forall i :: 0 <= i < |o.readings| ==> o.readings[i] >= 0)
      && (|clock| > 0 ==> o.watch.stopped <= clock[|clock| - 1])
    decreases |calls|
  {
    if |calls| > 0 {
      var first := Step(sw, calls[0], clock[0]);
      assert Ordered(first.watch) && first.watch.stopped <= clock[0];
      assert forall i :: 0 <= i < |first.readings| ==> first.readings[i] >= 0;
      if |clock| > 1 {
        assert clock[0] <= clock[1];
      }
      assert Monotone(clock[1..]) by {
        forall i, j | 0 <= i < j < |clock[1..]|
          ensures clock[1..][i] <= clock[1..][j]
        {
          assert clock[1..][i] == clock[i + 1] && clock[1..][j] == clock[j + 1];
        }
      }
      RunKeepsOrder(first.watch, calls[1..], clock[1..]);
      var rest := Run(first.watch, calls[1..], clock[1..]);
      var o := Run(sw, calls, clock);
      assert o.readings == first.readings + rest.readings;
      forall i | 0 <= i < |o.readings|
        ensures o.readings[i] >= 0
      {
        if i < |first.readings| {
          assert o.readings[i] == first.readings[i];
        } else {
          assert o.readings[i] == rest.readings[i - |first.readings|];
        }
      }
      if |clock| == 1 {
        assert o.watch == first.watch;
      } else {
        assert clock[1..][|clock[1..]| - 1] == clock[|clock| - 1];
      }
    }
  }

  /**
    A run of elapsed(false) calls only reads: the stopwatch is left as it was
    and every call returns the same count.
   */
  lemma {:induction false} ReadsOnlyRunIsConstant(sw: SW.Stopwatch, calls: seq<Call>, clock: seq<SW.Tick>)
    requires |calls| == |clock|
    requires forall i :: 0 <= i < |calls| ==> calls[i] == Elapsed(false)
    ensures var o := Run(sw, calls, clock);
      && o.watch == sw
      && (forall i :: 0 <= i < |o.readings| ==> o.readings[i] == SW.Elapsed(sw, false, 0).count)
    decreases |calls|
  {
    if |calls| > 0 {
      var first := Step(sw, calls[0], clock[0]);
      assert first == Outcome(sw, [SW.Elapsed(sw, false, 0).count]);
      ReadsOnlyRunIsConstant(sw, calls[1..], clock[1..]);
      var rest := Run(sw, calls[1..], clock[1..]);
      var o := Run(sw, calls, clock);
      assert o.readings == first.readings + rest.readings;
      forall i | 0 <= i < |o.readings|
        ensures o.readings[i] == SW.Elapsed(sw, false, 0).count
      {
        if i > 0 {
          assert o.readings[i] == rest.readings[i - 1];
        }
      }
    }
  }

  /**
    The calibration pattern: reset at one reading, then elapsed() at a later
    one. The count is the gap between the two readings in whole units, so it
    is zero whenever the gap is shorter than one unit.
   */
  lemma ResetThenElapsed(sw: SW.Stopwatch, t0: SW.Tick, t1: SW.Tick)
    requires t0 <= t1
    ensures var o := Run(sw, [Reset, Elapsed(true)], [t0, t1]);
      && |o.readings| == 1
      && o.readings[0] == TruncDiv(t1 - t0, TicksPerUnit(sw.resolution))
      && (t1 - t0 < TicksPerUnit(sw.resolution) ==> o.readings[0] == 0)
  {
    var o := Run(sw, [Reset, Elapsed(true)], [t0, t1]);
    assert [Reset, Elapsed(true)][1..] == [Elapsed(true)];
    assert [t0, t1][1..] == [t1];
    assert o.readings == [SW.ElapsedNow(SW.Reset(sw, t0), t1).count];
    TruncDivUnique(t1 - t0, TicksPerUnit(sw.resolution), o.readings[0]);
  }

  /**
    The default stopwatch counts in the clock's own nanosecond ticks, so
    reset followed by elapsed() loses nothing: the count is the exact gap.
   */
  lemma DefaultTimerIsExact(t0: SW.Tick, created: SW.Tick, t1: SW.Tick)
    requires t0 <= t1
    ensures var o := Run(SW.Create(DefaultResolution, created), [Reset, Elapsed(true)], [t0, t1]);
      o.readings == [t1 - t0]
  {
    var sw := SW.Create(DefaultResolution, created);
    ResetThenElapsed(sw, t0, t1);
    TruncDivUnique(t1 - t0, 1, t1 - t0);
  }
}
