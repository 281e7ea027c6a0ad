/** Verified client scenarios of the engine: what a caller can conclude from the contracts alone. */
module StopwatchScenarios {
  import opened Optional
  import opened Stopwatch

  /**
   * Start, 1500 ms, lap, 1000 ms more, complete (which stops the clock), then
   * a lap that the paused clock ignores, and a second complete that adds an
   * empty lap because time is still positive.
   */
  method LapThenComplete()
  {
    var s := new Session();
    s.HandleStartStop();
    s.Advance(1500);
    s.HandleLap();
    assert s.laps == [Lap(1, 1500, 1500)];
    s.Advance(1000);
    s.HandleCompleteLap();
    assert s.laps == [Lap(2, 1000, 2500), Lap(1, 1500, 1500)] by {
      SumPrepend(Lap(1, 1500, 1500), []);
    }
    assert !s.isActive && s.time == 2500;
    s.HandleLap();
    assert |s.laps| == 2;
    s.HandleCompleteLap();
    CurrentLapTimeAfterLap(2500, [Lap(1, 1500, 1500)]);
    assert s.laps == [Lap(3, 0, 2500), Lap(2, 1000, 2500), Lap(1, 1500, 1500)];
    s.HandleReset();
    assert s.time == 0 && !s.isActive && s.laps == [];
  }

  /** Laps of 500, 500 and 900 ms: the tie on the minimum goes to lap 2, the most recent of the two. */
  method TieBreak()
  {
    var laps := [Lap(3, 900, 1900), Lap(2, 500, 1000), Lap(1, 500, 500)];
    var minLap, maxLap := MinMaxLap(laps);
    assert !IsEarliestMin(laps, 0) by { assert !(laps[0].duration <= laps[1].duration); }
    assert !IsEarliestMin(laps, 2) by { assert !(laps[1].duration > laps[2].duration); }
    assert minLap == Some(2);
    assert !IsEarliestMax(laps, 1) && !IsEarliestMax(laps, 2);
    assert maxLap == Some(3);
  }

  /** Recorded laps of 1000, 2000 and 3000 ms average 2000; running at 9000 ms the overall average is 2250. */
  lemma AverageExample()
    ensures AverageSoFar([Lap(3, 3000, 6000), Lap(2, 2000, 3000), Lap(1, 1000, 1000)]) == 2000.0
    ensures OverallAverage(9000, true, [Lap(3, 3000, 6000), Lap(2, 2000, 3000), Lap(1, 1000, 1000)]) == 2250.0
  {
    var laps := [Lap(3, 3000, 6000), Lap(2, 2000, 3000), Lap(1, 1000, 1000)];
    assert SumDurations(laps) == 6000 by {
      assert laps[1..] == [Lap(2, 2000, 3000), Lap(1, 1000, 1000)];
      assert laps[1..][1..] == [Lap(1, 1000, 1000)];
    }
  }
}
