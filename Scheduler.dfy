/** The loop-carried state of the main loop in src/main.cpp: the two world-buffer image
    units exchanged after every simulation step, the tick counter that gates drawing,
    and the per-second tick and draw counters. The compute dispatch, the memory
    barrier, the draw calls and the clock are opaque; the one-second window test is a
    boolean input and the escape/close test is a bound on the number of iterations. */
module Scheduler {
  import opened Wrappers

  /** TICKS_PER_FRAME. */
  const TicksPerFrame: nat := 30

  /** A draw happens once every TicksPerFrame + 1 iterations: the counter is
      pre-incremented and compared with `>`. */
  const FramePeriod: nat := TicksPerFrame + 1

  /** The k-th iteration of the loop (counting from 1) draws a frame. */
  predicate DrawsOn(k: nat)
  {
    k > 0 && k % FramePeriod == 0
  }

  /** The number of iterations in (lo, hi] that draw. */
  function DrawsBetween(lo: nat, hi: nat): (r: nat)
    requires lo <= hi
    ensures r <= hi - lo
    decreases hi - lo
  {
    if lo == hi then 0 else DrawsBetween(lo, hi - 1) + (if DrawsOn(hi) then 1 else 0)
  }

  /** Closed form of the draw count: the number of multiples of the frame period in (lo, hi]. */
  lemma {:induction false} DrawsBetweenClosedForm(lo: nat, hi: nat)
    requires lo <= hi
    ensures DrawsBetween(lo, hi) == hi / FramePeriod - lo / FramePeriod
    decreases hi - lo
  {
    if lo < hi {
      DrawsBetweenClosedForm(lo, hi - 1);
      assert hi / FramePeriod == (hi - 1) / FramePeriod + (if hi % FramePeriod == 0 then 1 else 0);
    }
  }

  /** Exactly one draw in every FramePeriod consecutive iterations. */
  lemma OneDrawPerPeriod(t: nat)
    ensures DrawsBetween(t, t + FramePeriod) == 1
  {
    DrawsBetweenClosedForm(t, t + FramePeriod);
    assert (t + FramePeriod) / FramePeriod == t / FramePeriod + 1;
  }

  /** Since FramePeriod is odd, the q-th multiple of it has the parity of q. */
  lemma PeriodMultipleParity(k: nat)
    requires k % FramePeriod == 0
    ensures k % 2 == (k / FramePeriod) % 2
  {
    var q := k / FramePeriod;
    assert k == FramePeriod * q;
    assert k == 2 * (15 * q) + q;
  }

  /** The pass k that draws the next frame after passes start+1 … k-1 samples the unit of
      parity k, which is the parity of the number of frames drawn from the start of the loop. */
  lemma FrameParity(start: nat, k: nat)
    requires start < k && DrawsOn(k)
    ensures k % 2 == (start / FramePeriod + DrawsBetween(start, k - 1) + 1) % 2
  {
    DrawsBetweenClosedForm(start, k - 1);
    PeriodMultipleParity(k);
    assert (k - 1) / FramePeriod + 1 == k / FramePeriod;
  }

  /** The units sampled by the draws among passes lo+1 … hi, in order. A drawing pass k
      samples the output unit it was given, which has the parity of k. */
  function DrawnUnits(lo: nat, hi: nat): (r: seq<nat>)
    requires lo <= hi
    ensures |r| == DrawsBetween(lo, hi)
    decreases hi - lo
  {
    if lo == hi then [] else DrawnUnits(lo, hi - 1) + (if DrawsOn(hi) then [hi % 2] else [])
  }

  /** The drawn units alternate: the j-th frame drawn after pass lo samples the unit of
      parity lo / FramePeriod + j + 1. */
  lemma {:induction false} DrawnUnitsAlternate(lo: nat, hi: nat)
    requires lo <= hi
    ensures forall j :: 0 <= j < |DrawnUnits(lo, hi)| ==> DrawnUnits(lo, hi)[j] == (lo / FramePeriod + j + 1) % 2
    decreases hi - lo
  {
    if lo < hi {
      DrawnUnitsAlternate(lo, hi - 1);
      if DrawsOn(hi) {
        FrameParity(lo, hi);
      }
    }
  }

  /** Pre-incrementing the frame counter and resetting it once it exceeds TicksPerFrame
      counts passes modulo FramePeriod; the reset happens exactly on a drawing pass. */
  lemma CounterStep(t: nat)
    ensures (t + 1) % FramePeriod == if t % FramePeriod + 1 > TicksPerFrame then 0 else t % FramePeriod + 1
    ensures DrawsOn(t + 1) <==> t % FramePeriod + 1 > TicksPerFrame
  {
    var q, r := t / FramePeriod, t % FramePeriod;
    if r == TicksPerFrame {
      assert t + 1 == (q + 1) * FramePeriod;
    } else {
      assert t + 1 == q * FramePeriod + (r + 1);
    }
  }

  /** The image units bound as `input_world` and `output_world` for one compute dispatch. */
  datatype Dispatch = Dispatch(input: nat, output: nat)

  /** The line printed when the one-second window elapses: draws and ticks in the window. */
  datatype Report = Report(frames: int, ticks: int)

  /** The pass that last began a report window after passes it+1 … it+|elapsed|, where
      entry k says whether the window elapsed at the end of pass it+k+1. */
  function WindowStartAfter(elapsed: seq<bool>, it: nat, winStart: nat): (r: nat)
    requires winStart <= it
    ensures winStart <= r <= it + |elapsed|
    decreases |elapsed|
  {
    if elapsed == [] then winStart
    else WindowStartAfter(elapsed[1..], it + 1, if elapsed[0] then it + 1 else winStart)
  }

  /** The report lines printed over passes it+1 … it+|elapsed|: each gives the draws and
      the passes since the window began. */
  function Reports(elapsed: seq<bool>, it: nat, winStart: nat): seq<Report>
    requires winStart <= it
    decreases |elapsed|
  {
    if elapsed == [] then []
    else if elapsed[0] then
      [Report(DrawsBetween(winStart, it + 1), it + 1 - winStart)] + Reports(elapsed[1..], it + 1, it + 1)
    else Reports(elapsed[1..], it + 1, winStart)
  }

  /** One pass of the run: the first entry of `elapsed[n..]` decides whether a line is
      printed and where the next window begins. */
  lemma ReportStep(elapsed: seq<bool>, n: nat, it: nat, winStart: nat)
    requires n < |elapsed| && winStart <= it
    ensures var next := if elapsed[n] then it + 1 else winStart;
            WindowStartAfter(elapsed[n..], it, winStart) == WindowStartAfter(elapsed[n + 1..], it + 1, next)
    ensures elapsed[n] ==>
      Reports(elapsed[n..], it, winStart)
        == [Report(DrawsBetween(winStart, it + 1), it + 1 - winStart)] + Reports(elapsed[n + 1..], it + 1, it + 1)
    ensures !elapsed[n] ==> Reports(elapsed[n..], it, winStart) == Reports(elapsed[n + 1..], it + 1, winStart)
  {
    assert elapsed[n..][1..] == elapsed[n + 1..];
  }

  /** The index of the last elapsed window, if any. */
  function LastElapsed(elapsed: seq<bool>): (r: Option<nat>)
    ensures r.Some? ==> r.value < |elapsed| && elapsed[r.value]
    ensures r.Some? ==> forall k :: r.value < k < |elapsed| ==> !elapsed[k]
    ensures r.None? ==> forall k :: 0 <= k < |elapsed| ==> !elapsed[k]
  {
    if elapsed == [] then None
    else if elapsed[|elapsed| - 1] then Some(|elapsed| - 1)
    else LastElapsed(elapsed[..|elapsed| - 1])
  }

  /** The window in force after a run began at the end of the pass of the last elapsed
      entry, or is the one in force before the run when no window elapsed. */
  lemma {:induction false} WindowStartIsLastElapsed(elapsed: seq<bool>, it: nat, winStart: nat)
    requires winStart <= it
    ensures WindowStartAfter(elapsed, it, winStart)
         == match LastElapsed(elapsed) case None => winStart case Some(k) => it + k + 1
    decreases |elapsed|
  {
    if elapsed != [] {
      var w := if elapsed[0] then it + 1 else winStart;
      WindowStartIsLastElapsed(elapsed[1..], it + 1, w);
      LastElapsedOfTail(elapsed);
    }
  }

  /** LastElapsed of a sequence in terms of LastElapsed of its tail. */
  lemma {:induction false} LastElapsedOfTail(elapsed: seq<bool>)
    requires elapsed != []
    ensures LastElapsed(elapsed) == match LastElapsed(elapsed[1..])
      case Some(k) => Some(k + 1)
      case None => if elapsed[0] then Some(0) else None
    decreases |elapsed|
  {
    var t := elapsed[1..];
    if |elapsed| > 1 && !elapsed[|elapsed| - 1] {
      assert elapsed[..|elapsed| - 1][1..] == t[..|t| - 1];
      LastElapsedOfTail(elapsed[..|elapsed| - 1]);
    }
  }

  /** Draw counts add up over consecutive ranges of passes. */
  lemma DrawsBetweenAdd(lo: nat, mid: nat, hi: nat)
    requires lo <= mid <= hi
    ensures DrawsBetween(lo, hi) == DrawsBetween(lo, mid) + DrawsBetween(mid, hi)
  {
    DrawsBetweenClosedForm(lo, hi);
    DrawsBetweenClosedForm(lo, mid);
    DrawsBetweenClosedForm(mid, hi);
  }

  function SumTicks(reports: seq<Report>): int
  {
    if reports == [] then 0 else SumTicks(reports[..|reports| - 1]) + reports[|reports| - 1].ticks
  }

  function SumFrames(reports: seq<Report>): int
  {
    if reports == [] then 0 else SumFrames(reports[..|reports| - 1]) + reports[|reports| - 1].frames
  }

  lemma {:induction false} SumsOfConcat(a: seq<Report>, b: seq<Report>)
    ensures SumTicks(a + b) == SumTicks(a) + SumTicks(b)
    ensures SumFrames(a + b) == SumFrames(a) + SumFrames(b)
    decreases |b|
  {
    if b == [] {
      assert a + b == a;
    } else {
      assert (a + b)[..|a + b| - 1] == a + b[..|b| - 1];
      assert (a + b)[|a + b| - 1] == b[|b| - 1];
      SumsOfConcat(a, b[..|b| - 1]);
    }
  }

  /** No pass and no draw is lost between the report lines: the printed tick and frame
      counts, plus what the current window holds, account for every pass and every draw
      since the window that was in force when the run began. */
  lemma {:induction false} ReportsAccountForEveryPass(elapsed: seq<bool>, it: nat, winStart: nat)
    requires winStart <= it
    ensures var last := WindowStartAfter(elapsed, it, winStart);
            SumTicks(Reports(elapsed, it, winStart)) + (it + |elapsed| - last) == it + |elapsed| - winStart
    ensures var last := WindowStartAfter(elapsed, it, winStart);
            SumFrames(Reports(elapsed, it, winStart)) + DrawsBetween(last, it + |elapsed|)
              == DrawsBetween(winStart, it + |elapsed|)
    decreases |elapsed|
  {
    if elapsed != [] {
      var end := it + |elapsed|;
      var w := if elapsed[0] then it + 1 else winStart;
      ReportsAccountForEveryPass(elapsed[1..], it + 1, w);
      if elapsed[0] {
        var r := Report(DrawsBetween(winStart, it + 1), it + 1 - winStart);
        SumsOfConcat([r], Reports(elapsed[1..], it + 1, it + 1));
        assert SumTicks([r]) == r.ticks && SumFrames([r]) == r.frames;
        DrawsBetweenAdd(winStart, it + 1, end);
      }
    }
  }

  class MainLoop {
    var inputWorldUnit: nat
    var outputWorldUnit: nat
    var ticksInCurrentFrame: int
    var drawCount: int
    var tickCount: int

    /** Iterations performed since the loop was entered. */
    ghost var iterations: nat
    /** The value of `iterations` when the current report window began. */
    ghost var windowStart: nat

    ghost predicate Valid()
      reads this
    {
      && inputWorldUnit == iterations % 2
      && outputWorldUnit == 1 - inputWorldUnit
      && ticksInCurrentFrame == iterations % FramePeriod
      && windowStart <= iterations
      && tickCount == iterations - windowStart
      && drawCount == DrawsBetween(windowStart, iterations)
    }

    /** The state just before the `do` loop is entered. */
    constructor ()
      ensures Valid() && iterations == 0 && windowStart == 0
      ensures inputWorldUnit == 0 && outputWorldUnit == 1
      ensures ticksInCurrentFrame == 0 && drawCount == 0 && tickCount == 0
    {
      inputWorldUnit := 0;
      outputWorldUnit := 1;
      ticksInCurrentFrame := 0;
      drawCount := 0;
      tickCount := 0;
      iterations := 0;
      windowStart := 0;
    }

    /** One pass of the loop body. Returns the units bound for the compute dispatch, the
        unit sampled by the draw when this iteration draws, and the report printed when
        the one-second window has elapsed. */
    method Iterate(reportElapsed: bool) returns (dispatch: Dispatch, drawn: Option<nat>, report: Option<Report>)
      requires Valid()
      modifies this
      ensures Valid() && iterations == old(iterations) + 1
      ensures dispatch == Dispatch(old(inputWorldUnit), old(outputWorldUnit))
      ensures drawn.Some? <==> old(ticksInCurrentFrame) + 1 > TicksPerFrame
      ensures drawn.Some? <==> DrawsOn(iterations)
      ensures drawn.Some? ==> drawn.value == old(outputWorldUnit)
      ensures ticksInCurrentFrame == if drawn.Some? then 0 else old(ticksInCurrentFrame) + 1
      ensures 0 <= ticksInCurrentFrame <= TicksPerFrame
      ensures inputWorldUnit == old(outputWorldUnit) && outputWorldUnit == old(inputWorldUnit)
      ensures inputWorldUnit <= 1 && outputWorldUnit <= 1 && inputWorldUnit != outputWorldUnit
      ensures reportElapsed ==>
        && report == Some(Report(old(drawCount) + (if drawn.Some? then 1 else 0), old(tickCount) + 1))
        && drawCount == 0 && tickCount == 0 && windowStart == iterations
      ensures !reportElapsed ==>
        && report == None
        && drawCount == old(drawCount) + (if drawn.Some? then 1 else 0)
        && tickCount == old(tickCount) + 1
        && windowStart == old(windowStart)
    {
      CounterStep(iterations);
      assert (iterations + 1) % 2 == 1 - iterations % 2;
      dispatch := Dispatch(inputWorldUnit, outputWorldUnit);
      ticksInCurrentFrame := ticksInCurrentFrame + 1;
      if ticksInCurrentFrame > TicksPerFrame {
        ticksInCurrentFrame := 0;
        drawCount := drawCount + 1;
        drawn := Some(outputWorldUnit);
      } else {
        drawn := None;
      }
      var temp := inputWorldUnit;
      inputWorldUnit := outputWorldUnit;
      outputWorldUnit := temp;
      tickCount := tickCount + 1;
      iterations := iterations + 1;
      if reportElapsed {
        report := Some(Report(drawCount, tickCount));
        drawCount := 0;
        tickCount := 0;
        windowStart := iterations;
      } else {
        report := None;
      }
    }

    /** The `do ... while` loop run until the stop signal is observed after the last
        entry of `windowElapsed` (so at least one iteration, as in a `do` loop). Entry k
        says whether the report window had elapsed at the end of iteration k. Returns the
        units sampled by the draws, in order. */
    method Run(windowElapsed: seq<bool>) returns (frames: seq<nat>, reports: seq<Report>)
      requires Valid() && |windowElapsed| >= 1
      modifies this
      ensures Valid() && iterations == old(iterations) + |windowElapsed|
      ensures windowStart == WindowStartAfter(windowElapsed, old(iterations), old(windowStart))
      ensures reports == Reports(windowElapsed, old(iterations), old(windowStart))
      ensures tickCount == iterations - windowStart && drawCount == DrawsBetween(windowStart, iterations)
      ensures frames == DrawnUnits(old(iterations), iterations)
      ensures |frames| == DrawsBetween(old(iterations), iterations)
      ensures forall j :: 0 <= j < |frames| ==> frames[j] == (old(iterations) / FramePeriod + j + 1) % 2
      ensures (forall k :: 0 <= k < |windowElapsed| ==> !windowElapsed[k]) ==>
        tickCount == old(tickCount) + |windowElapsed| && drawCount == old(drawCount) + |frames|
    {
      ghost var start := iterations;
      ghost var startWindow := windowStart;
      ghost var startTicks := tickCount;
      ghost var startDraws := drawCount;
      frames := [];
      reports := [];
      var n := 0;
      while n < |windowElapsed|
        invariant Valid() && 0 <= n <= |windowElapsed|
        invariant iterations == start + n
        invariant WindowStartAfter(windowElapsed[n..], iterations, windowStart)
               == WindowStartAfter(windowElapsed, start, startWindow)
        invariant reports + Reports(windowElapsed[n..], iterations, windowStart)
               == Reports(windowElapsed, start, startWindow)
        invariant frames == DrawnUnits(start, iterations)
      {
        ghost var before, it := windowStart, iterations;
        ReportStep(windowElapsed, n, it, before);
        var _, drawn, report := Iterate(windowElapsed[n]);
        assert iterations == it + 1 && windowStart == if windowElapsed[n] then it + 1 else before;
        if drawn.Some? {
          frames := frames + [drawn.value];
        }
        ghost var rest := Reports(windowElapsed[n + 1..], iterations, windowStart);
        if report.Some? {
          assert Reports(windowElapsed[n..], it, before) == [report.value] + rest;
          assert reports + [report.value] + rest == reports + ([report.value] + rest);
          reports := reports + [report.value];
        } else {
          assert Reports(windowElapsed[n..], it, before) == rest;
        }
        assert reports + rest == Reports(windowElapsed, start, startWindow);
        assert WindowStartAfter(windowElapsed[n + 1..], iterations, windowStart)
            == WindowStartAfter(windowElapsed, start, startWindow);
        n := n + 1;
      }
      assert windowElapsed[n..] == [];
      DrawnUnitsAlternate(start, iterations);
      WindowStartIsLastElapsed(windowElapsed, start, startWindow);
      if LastElapsed(windowElapsed).None? {
        DrawsBetweenAdd(startWindow, start, iterations);
      }
    }
  }

  /** From the start of the loop, with no report window elapsing, n iterations draw
      n / FramePeriod frames and count n ticks, and the frames alternate between the two
      world buffers, starting with unit 1. */
  method RunFromStart(n: nat) returns (drawCount: int, tickCount: int, frames: seq<nat>)
    requires n >= 1
    ensures tickCount == n
    ensures drawCount == n / FramePeriod && |frames| == drawCount
    ensures forall j :: 0 <= j < |frames| ==> frames[j] == (j + 1) % 2
  {
    var loop := new MainLoop();
    var reports;
    frames, reports := loop.Run(seq(n, _ => false));
    drawCount := loop.drawCount;
    tickCount := loop.tickCount;
    DrawsBetweenClosedForm(0, n);
  }
}
