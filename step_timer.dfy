/**
 * The step timer of stepTimer.js: an object that records a list of
 * labelled durations. The clock (`new Date().getTime()`) is a parameter
 * of every operation that reads it, one parameter per read: `addStep`
 * reads it twice, `now` for the duration and `later` for the restart.
 */
module StepTimer {
  import opened JsValues
  import Arrays

  /** One recorded step: its message and its duration in milliseconds. */
  datatype Step = Step(message: Value, time: int)

  /** The durations of the steps, in order. */
  function Times(steps: seq<Step>): (r: seq<int>)
    ensures |r| == |steps|
    ensures forall i :: 0 <= i < |steps| ==> r[i] == steps[i].time
  {
    seq(|steps|, i requires 0 <= i < |steps| => steps[i].time)
  }

  /** `steps.map(e => e.time).sum()`. */
  function TimeSum(steps: seq<Step>): int
  {
    Arrays.Total(Times(steps))
  }

  /** Appending a step adds its duration to the sum. */
  lemma TimeSumAppend(steps: seq<Step>, s: Step)
    ensures TimeSum(steps + [s]) == TimeSum(steps) + s.time
  {
    assert Times(steps + [s]) == Times(steps) + [s.time];
    Arrays.TotalAppend(Times(steps), [s.time]);
  }

  class Timer {
    var start: int
    var totalStart: int
    var format: string
    var steps: seq<Step>
    /** The clock ticks that fell between the two reads of each `addStep`: counted in no step. */
    ghost var gap: int

    /**
     * The recorded durations and the ticks lost between the two clock reads
     * of each step add up to the time from the (re)start to the last step.
     */
    ghost predicate Valid()
      reads this
    {
      TimeSum(steps) + gap == start - totalStart
    }

    /** A new timer: both clocks start now, no steps, the default format. */
    constructor(now: int)
      ensures start == now && totalStart == now
      ensures format == "mm:ss.fff" && steps == [] && gap == 0
      ensures Valid()
    {
      gap := 0;
      start := now;
      totalStart := now;
      format := "mm:ss.fff";
      steps := [];
    }

    /**
     * `addStep(message)`: records the time since the previous step (or the
     * start), read as `now`, and restarts the step clock at a second read,
     * `later`; the ticks between the two reads are in no step.
     */
    method AddStep(message: Value, now: int, later: int)
      requires Valid()
      modifies this
      ensures steps == old(steps) + [Step(message, now - old(start))]
      ensures start == later
      ensures gap == old(gap) + (later - now)
      ensures totalStart == old(totalStart) && format == old(format)
      ensures Valid()
    {
      var time := now - start;
      start := later;
      TimeSumAppend(steps, Step(message, time));
      steps := steps + [Step(message, time)];
      gap := gap + (later - now);
    }

    /** `reset()`: drops the steps and restarts both clocks. */
    method Reset(now: int)
      modifies this
      ensures steps == [] && start == now && totalStart == now && gap == 0
      ensures format == old(format)
      ensures Valid()
    {
      steps := [];
      gap := 0;
      totalStart := now;
      start := totalStart;
    }

    /** `get_steps()`: a copy of the steps. */
    method GetSteps() returns (r: seq<Step>)
      ensures r == steps
    {
      r := steps;
    }

    /**
     * `getTotalTime(useSum)`: the sum of the step durations, or the time
     * since the timer was created or reset.
     */
    method GetTotalTime(useSum: bool, now: int) returns (r: int)
      ensures r == if useSum then TimeSum(steps) else now - totalStart
      ensures useSum && Valid() ==> r == start - totalStart - gap
    {
      if useSum {
        r := TimeSum(steps);
      } else {
        r := now - totalStart;
      }
    }

    method GetFormat() returns (r: string)
      ensures r == format
    {
      r := format;
    }

    method SetFormat(value: string)
      modifies this
      ensures format == value
      ensures steps == old(steps) && start == old(start) && totalStart == old(totalStart)
      ensures gap == old(gap)
    {
      format := value;
    }
  }

  /** Steps read before a later `addStep` are not changed by it; the new step comes last. */
  method StepsAreACopy(t: Timer, message: Value, now: int, later: int) returns (before: seq<Step>, after: seq<Step>)
    requires t.Valid()
    modifies t
    ensures before == old(t.steps)
    ensures after == before + [Step(message, now - old(t.start))]
  {
    before := t.GetSteps();
    t.AddStep(message, now, later);
    after := t.GetSteps();
  }

  /** `set_format(v)` followed by `get_format()` gives `v`. */
  method FormatRoundTrip(t: Timer, value: string) returns (r: string)
    modifies t
    ensures r == value
  {
    t.SetFormat(value);
    r := t.GetFormat();
  }
}
