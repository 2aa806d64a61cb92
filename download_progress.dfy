/** The simulated download of showDownloadProgress: every 200 ms a random
    amount below 20 is added to the progress; at 100 the bar is full, the
    interval is cleared and "Download complete!" is shown, otherwise the
    floored percentage is shown. The random amount is passed in as `delta`;
    the timers and the DOM updates become the returned Signal. */
module DownloadProgress {

  /** Progress at completion. */
  const Full: real := 100.0

  /** Each tick adds Math.random() * MaxStep, so strictly less than this. */
  const MaxStep: real := 20.0

  datatype Phase = Running | Complete

  /** What a tick shows: the bar width and the floored percentage while
      running, or the completion message. */
  datatype Signal = Progress(width: real, percent: int) | Completed

  predicate ValidDelta(delta: real) {
    0.0 <= delta < MaxStep
  }

  predicate ValidDeltas(ds: seq<real>) {
    forall k :: 0 <= k < |ds| ==> ValidDelta(ds[k])
  }

  /** Progress after one tick from `progress`: the increment is added and the
      result clamped to Full. */
  function Advance(progress: real, delta: real): (next: real)
    requires 0.0 <= progress < Full && ValidDelta(delta)
    ensures progress <= next <= Full
    ensures next == Full <==> progress + delta >= Full
    ensures next < Full ==> next == progress + delta
  {
    if progress + delta >= Full then Full else progress + delta
  }

  /** The percentage shown while running: floor(progress), below 100. */
  function Percent(progress: real): (k: int)
    requires 0.0 <= progress < Full
    ensures 0 <= k < 100
    ensures k as real <= progress < (k + 1) as real
  {
    progress.Floor
  }

  /** Progress after the ticks `deltas`; once Full is reached the interval
      is cleared, so the remaining draws are never used. */
  function Run(progress: real, deltas: seq<real>): (final: real)
    requires 0.0 <= progress <= Full && ValidDeltas(deltas)
    ensures progress <= final <= Full
    decreases |deltas|
  {
    if deltas == [] || progress == Full then progress
    else Run(Advance(progress, deltas[0]), deltas[1..])
  }

  function Sum(ds: seq<real>): real {
    if ds == [] then 0.0 else ds[0] + Sum(ds[1..])
  }

  lemma {:induction false} SumBounds(ds: seq<real>)
    requires ValidDeltas(ds)
    ensures 0.0 <= Sum(ds) <= MaxStep * (|ds| as real)
    ensures ds != [] ==> Sum(ds) < MaxStep * (|ds| as real)
  {
    if ds != [] {
      SumBounds(ds[1..]);
    }
  }

  /** Progress after any ticks is the total of the increments, clamped to
      Full: the draws after completion are ignored and nothing else is lost. */
  lemma {:induction false} RunIsClampedSum(progress: real, deltas: seq<real>)
    requires 0.0 <= progress <= Full && ValidDeltas(deltas)
    ensures Run(progress, deltas) == if progress + Sum(deltas) >= Full then Full else progress + Sum(deltas)
    decreases |deltas|
  {
    SumBounds(deltas);
    if deltas != [] && progress < Full {
      SumBounds(deltas[1..]);
      RunIsClampedSum(Advance(progress, deltas[0]), deltas[1..]);
    }
  }

  /** Since every increment is below 20, five ticks from 0 never finish the
      download: at least six are needed. */
  lemma FiveTicksNeverComplete(deltas: seq<real>)
    requires ValidDeltas(deltas) && |deltas| <= 5
    ensures Run(0.0, deltas) < Full
  {
    SumBounds(deltas);
    RunIsClampedSum(0.0, deltas);
  }

  lemma {:induction false} SumAtLeast(ds: seq<real>, m: real)
    requires forall k :: 0 <= k < |ds| ==> ds[k] >= m
    ensures Sum(ds) >= m * (|ds| as real)
  {
    if ds != [] {
      SumAtLeast(ds[1..], m);
    }
  }

  /** If every increment is at least m > 0, the download completes within
      any number of ticks n with n * m >= 100. */
  lemma CompletesWithin(deltas: seq<real>, m: real)
    requires ValidDeltas(deltas)
    requires 0.0 < m && forall k :: 0 <= k < |deltas| ==> deltas[k] >= m
    requires (|deltas| as real) * m >= Full
    ensures Run(0.0, deltas) == Full
  {
    SumAtLeast(deltas, m);
    RunIsClampedSum(0.0, deltas);
  }

  /** Zero increments never complete the download: progress stays at 0. */
  lemma {:induction false} ZeroDeltasNeverComplete(deltas: seq<real>)
    requires forall k :: 0 <= k < |deltas| ==> deltas[k] == 0.0
    ensures ValidDeltas(deltas) && Run(0.0, deltas) == 0.0
    decreases |deltas|
  {
    if deltas != [] {
      ZeroDeltasNeverComplete(deltas[1..]);
    }
  }

  /** The state captured by the interval callback. */
  class ProgressSimulator {
    var progress: real
    var phase: Phase

    /** Progress lies in [0, 100] and equals 100 exactly when complete. */
    ghost predicate Valid()
      reads this
    {
      0.0 <= progress <= Full && (phase == Complete <==> progress == Full)
    }

    constructor ()
      ensures Valid() && progress == 0.0 && phase == Running
    {
      progress := 0.0;
      phase := Running;
    }

    /** One run of the interval callback; it only runs while the interval
        has not been cleared. */
    method Tick(delta: real) returns (sig: Signal)
      requires Valid() && phase == Running && ValidDelta(delta)
      modifies this
      ensures Valid()
      ensures old(progress) <= progress <= Full
      ensures progress == Run(old(progress), [delta])
      ensures phase == Complete <==> old(progress) + delta >= Full
      ensures sig == if phase == Complete then Completed else Progress(progress, Percent(progress))
      ensures delta == 0.0 ==> phase == Running && progress == old(progress)
    {
      progress := progress + delta;
      if progress >= Full {
        progress := Full;
        phase := Complete;
        sig := Completed;
      } else {
        sig := Progress(progress, Percent(progress));
      }
    }
  }
}
