/**
 * The stopwatch's timing and lap-accounting engine: the session state
 * (elapsed time, running flag, lap history newest-first), its four commands,
 * the clock step, and the values derived from a snapshot of the state.
 */
module Stopwatch {
  import opened Optional

  /** One recorded lap: its 1-based number, the time attributed to it, and the elapsed time when it was recorded. */
  datatype Lap = Lap(lap: nat, duration: int, totalTime: int)

  /** The `reduce` that adds up the durations of a lap list. */
  function SumDurations(laps: seq<Lap>): (r: int)
    ensures laps == [] ==> r == 0
    ensures (forall i :: 0 <= i < |laps| ==> laps[i].duration >= 0) ==> r >= 0
  {
    if laps == [] then 0 else laps[0].duration + SumDurations(laps[1..])
  }

  /** The lap record both lap commands build from the current time and history. */
  function NewLap(time: nat, laps: seq<Lap>): (l: Lap)
    ensures l.lap == |laps| + 1 && l.totalTime == time
    ensures l.duration + SumDurations(laps) == time
  {
    Lap(|laps| + 1, time - SumDurations(laps), time)
  }

  /**
   * The session invariant, with laps stored newest first: lap numbers run
   * |laps| down to 1, every duration is non-negative, the durations of each lap
   * and of all older ones add up to that lap's total, and no lap was recorded
   * after the current time.
   */
  predicate WellFormed(time: nat, laps: seq<Lap>)
  {
    && (forall i :: 0 <= i < |laps| ==> laps[i].lap == |laps| - i)
    && (forall i :: 0 <= i < |laps| ==> laps[i].duration >= 0)
    && (forall i :: 0 <= i < |laps| ==> SumDurations(laps[i..]) == laps[i].totalTime)
    && (|laps| > 0 ==> laps[0].totalTime <= time)
  }

  /** The durations add up to the total of the newest lap, and never to more than the elapsed time. */
  lemma SumIsNewestTotal(time: nat, laps: seq<Lap>)
    requires WellFormed(time, laps)
    ensures laps != [] ==> SumDurations(laps) == laps[0].totalTime
    ensures 0 <= SumDurations(laps) <= time
  {
    if laps != [] {
      assert laps[0..] == laps;
    }
  }

  /** Along the stored (newest-first) order, the recorded totals never increase. */
  lemma {:induction false} TotalsNonIncreasing(time: nat, laps: seq<Lap>, i: nat, j: nat)
    requires WellFormed(time, laps)
    requires i <= j < |laps|
    ensures laps[j].totalTime <= laps[i].totalTime
    decreases j - i
  {
    if i < j {
      assert laps[i..][1..] == laps[i + 1..];
      assert laps[i].totalTime == laps[i].duration + laps[i + 1].totalTime;
      TotalsNonIncreasing(time, laps, i + 1, j);
    }
  }

  lemma SumPrepend(l: Lap, laps: seq<Lap>)
    ensures SumDurations([l] + laps) == l.duration + SumDurations(laps)
  {
    assert ([l] + laps)[1..] == laps;
  }

  /** Recording a lap at the current time keeps the invariant. */
  lemma NewLapKeepsWellFormed(time: nat, laps: seq<Lap>)
    requires WellFormed(time, laps)
    ensures WellFormed(time, [NewLap(time, laps)] + laps)
  {
    var l := NewLap(time, laps);
    var laps' := [l] + laps;
    SumIsNewestTotal(time, laps);
    SumPrepend(l, laps);
    assert laps'[0..] == laps';
    forall i | 1 <= i < |laps'|
      ensures SumDurations(laps'[i..]) == laps'[i].totalTime
    {
      assert laps'[i..] == laps[i - 1..];
    }
  }

  /** The new lap takes exactly the time not yet attributed to a lap, so the partition becomes exact. */
  lemma NewLapClosesPartition(time: nat, laps: seq<Lap>)
    requires WellFormed(time, laps)
    ensures NewLap(time, laps).duration >= 0
    ensures SumDurations([NewLap(time, laps)] + laps) == time
  {
    SumIsNewestTotal(time, laps);
    SumPrepend(NewLap(time, laps), laps);
  }

  /** A session whose state the commands update in place. */
  class Session {
    var time: nat
    var isActive: bool
    var laps: seq<Lap>

    predicate Valid()
      reads this
    {
      WellFormed(time, laps)
    }

    /** The initial state of the component. */
    constructor ()
      ensures Valid()
      ensures time == 0 && !isActive && laps == []
    {
      time, isActive, laps := 0, false, [];
    }

    /** `handleStartStop`: toggles the running flag and nothing else. */
    method HandleStartStop()
      requires Valid()
      modifies this
      ensures Valid()
      ensures isActive == !old(isActive)
      ensures time == old(time) && laps == old(laps)
    {
      isActive := !isActive;
    }

    /** `handleReset`: from any state, back to the initial one. */
    method HandleReset()
      modifies this
      ensures Valid()
      ensures time == 0 && !isActive && laps == []
    {
      isActive := false;
      time := 0;
      laps := [];
    }

    /** `handleLap`: while running, prepend a lap for the time since the previous one; otherwise nothing. */
    method HandleLap()
      requires Valid()
      modifies this
      ensures Valid()
      ensures time == old(time) && isActive == old(isActive)
      ensures old(isActive) ==> laps == [NewLap(old(time), old(laps))] + old(laps)
      ensures !old(isActive) ==> laps == old(laps)
    {
      if isActive {
        NewLapKeepsWellFormed(time, laps);
        laps := [NewLap(time, laps)] + laps;
      }
    }

    /**
     * `handleCompleteLap`: when running or when some time has elapsed, prepend
     * the same lap record as HandleLap and stop the clock; otherwise nothing.
     */
    method HandleCompleteLap()
      requires Valid()
      modifies this
      ensures Valid()
      ensures time == old(time)
      ensures (old(isActive) || old(time) > 0) ==>
        laps == [NewLap(old(time), old(laps))] + old(laps) && !isActive
      ensures !(old(isActive) || old(time) > 0) ==>
        laps == old(laps) && isActive == old(isActive)
    {
      if isActive || time > 0 {
        NewLapKeepsWellFormed(time, laps);
        laps := [NewLap(time, laps)] + laps;
        isActive := false;
      }
    }

    /**
     * One tick of the running clock: the interval callback, which only runs
     * while the session is active, adds the wall-clock time `d` that passed
     * since the reference start was last re-based.
     */
    method Advance(d: nat)
      requires Valid() && isActive
      modifies this
      ensures Valid()
      ensures time == old(time) + d
      ensures isActive && laps == old(laps)
    {
      time := time + d;
    }
  }

  /** `currentLapTime`: the time accrued since the last lap boundary. */
  function CurrentLapTime(time: nat, laps: seq<Lap>): (r: int)
    ensures r == time - SumDurations(laps)
  {
    if |laps| == 0 then time else time - SumDurations(laps)
  }

  /** Under the invariant the current lap is the time since the newest lap was recorded. */
  lemma CurrentLapTimeSinceNewest(time: nat, laps: seq<Lap>)
    requires WellFormed(time, laps)
    ensures 0 <= CurrentLapTime(time, laps) <= time
    ensures laps != [] ==> CurrentLapTime(time, laps) == time - laps[0].totalTime
  {
    SumIsNewestTotal(time, laps);
  }

  /** Right after a lap is recorded the current lap is empty; a second lap at the same time has duration 0. */
  lemma {:induction false} CurrentLapTimeAfterLap(time: nat, laps: seq<Lap>)
    ensures CurrentLapTime(time, [NewLap(time, laps)] + laps) == 0
    ensures NewLap(time, [NewLap(time, laps)] + laps).duration == 0
  {
    SumPrepend(NewLap(time, laps), laps);
  }

  /** `averageSoFar`: the mean duration of the recorded laps, 0 when there are none. */
  function AverageSoFar(laps: seq<Lap>): (r: real)
    ensures laps == [] ==> r == 0.0
    ensures laps != [] ==> r * (|laps| as real) == SumDurations(laps) as real
  {
    if |laps| == 0 then 0.0 else SumDurations(laps) as real / |laps| as real
  }

  /**
   * `overallAverage`: with laps, the running session counts the lap in
   * progress as one more lap; a paused one averages the recorded laps only.
   * With no laps, the elapsed time while running and 0 while paused.
   */
  function OverallAverage(time: nat, isActive: bool, laps: seq<Lap>): (r: real)
    ensures laps == [] && !isActive ==> r == 0.0
    ensures isActive ==> r * ((|laps| + 1) as real) == time as real
    ensures laps != [] && !isActive ==> r == AverageSoFar(laps)
  {
    if |laps| == 0 then (if isActive then time as real else 0.0)
    else
      var avgSoFar := AverageSoFar(laps);
      if isActive then time as real / (|laps| + 1) as real else avgSoFar
  }

  /** While running, the overall average is the mean over the recorded laps and the current one. */
  lemma OverallAverageCountsCurrentLap(time: nat, laps: seq<Lap>)
    ensures OverallAverage(time, true, laps) * ((|laps| + 1) as real)
         == (SumDurations(laps) + CurrentLapTime(time, laps)) as real
  {
    var c := CurrentLapTime(time, laps);
    assert SumDurations(laps) + c == time;
  }

  /** Under the invariant the average of the recorded laps is the newest total spread over them. */
  lemma AverageSoFarOfPartition(time: nat, laps: seq<Lap>)
    requires WellFormed(time, laps)
    ensures laps != [] ==> AverageSoFar(laps) * (|laps| as real) == laps[0].totalTime as real
    ensures 0.0 <= AverageSoFar(laps) <= time as real
  {
    SumIsNewestTotal(time, laps);
    if laps != [] {
      MeanAtMostTotal(SumDurations(laps) as real, |laps| as real);
    }
  }

  lemma MeanAtMostTotal(s: real, n: real)
    requires 0.0 <= s && 1.0 <= n
    ensures 0.0 <= s / n <= s
  {
    var q := s / n;
    assert q * n == s;
    assert q * 1.0 <= q * n;
  }

  /** The lap at k has the least duration, and every lap before it in stored order is strictly longer. */
  ghost predicate IsEarliestMin(laps: seq<Lap>, k: int)
  {
    && 0 <= k < |laps|
    && (forall j :: 0 <= j < |laps| ==> laps[k].duration <= laps[j].duration)
    && (forall j :: 0 <= j < k ==> laps[j].duration > laps[k].duration)
  }

  /** The lap at k has the greatest duration, and every lap before it in stored order is strictly shorter. */
  ghost predicate IsEarliestMax(laps: seq<Lap>, k: int)
  {
    && 0 <= k < |laps|
    && (forall j :: 0 <= j < |laps| ==> laps[j].duration <= laps[k].duration)
    && (forall j :: 0 <= j < k ==> laps[j].duration < laps[k].duration)
  }

  /**
   * `minLap`/`maxLap`: null with fewer than two laps; otherwise the numbers of
   * a shortest and a longest lap. The scan is over the stored newest-first
   * list with strict comparisons, so a tie goes to the most recent lap.
   */
  method MinMaxLap(laps: seq<Lap>) returns (minLap: Option<nat>, maxLap: Option<nat>)
    ensures |laps| < 2 <==> minLap == None
    ensures |laps| < 2 <==> maxLap == None
    ensures |laps| >= 2 ==> exists k :: IsEarliestMin(laps, k) && minLap == Some(laps[k].lap)
    ensures |laps| >= 2 ==> exists k :: IsEarliestMax(laps, k) && maxLap == Some(laps[k].lap)
  {
    if |laps| < 2 {
      return None, None;
    }
    var min, max := laps[0], laps[0];
    ghost var mi, ma := 0, 0;
    for i := 0 to |laps|
      invariant 0 <= mi < |laps| && min == laps[mi]
      invariant 0 <= ma < |laps| && max == laps[ma]
      invariant forall j :: 0 <= j < i ==> min.duration <= laps[j].duration
      invariant forall j :: 0 <= j < mi ==> laps[j].duration > min.duration
      invariant forall j :: 0 <= j < i ==> laps[j].duration <= max.duration
      invariant forall j :: 0 <= j < ma ==> laps[j].duration < max.duration
    {
      if laps[i].duration < min.duration {
        min, mi := laps[i], i;
      }
      if laps[i].duration > max.duration {
        max, ma := laps[i], i;
      }
    }
    assert IsEarliestMin(laps, mi) && IsEarliestMax(laps, ma);
    minLap, maxLap := Some(min.lap), Some(max.lap);
  }
}
