/** Runs of a periodic controller: verdicts written at instants, each with a requeue delay. */
module TimedRuns {
  import opened Clock

  // One reconcile: when it ran, the flag it wrote, and when it asked to run again.
  datatype Tick = Tick(at: Time, verdict: bool, requeueAfter: Duration)

  // Every reconcile comes after the previous one and no later than the previous one asked for
  // (a change of the watched object may bring it forward).
  ghost predicate Timely(run: seq<Tick>) {
    && |run| > 0
    && forall i :: 0 <= i < |run| - 1 ==> run[i].at < run[i + 1].at <= run[i].at + run[i].requeueAfter
  }

  // The flag as a reader finds it at t: the verdict of the last reconcile up to t.
  ghost function FlagAt(run: seq<Tick>, t: Time): bool
    requires |run| > 0
    decreases |run|
  {
    var n := |run| - 1;
    if n == 0 || run[n].at <= t then run[n].verdict else FlagAt(run[..n], t)
  }

  // t lies in the last second before a reconcile.
  ghost predicate LastSecond(run: seq<Tick>, t: Time) {
    exists i :: 0 < i < |run| && run[i].at - SECOND <= t < run[i].at
  }

  // A verdict that stays right until a second before the requeue it comes with.
  ghost predicate StaysRight(tick: Tick, truth: Time -> bool) {
    forall t :: tick.at <= t < tick.at + tick.requeueAfter - SECOND ==> (tick.verdict <==> truth(t))
  }

  // At every instant between the first and the last reconcile the flag is right, or a
  // reconcile is less than a second away.
  lemma {:induction false} FlagIsAccurate(run: seq<Tick>, truth: Time -> bool, t: Time)
    requires Timely(run) && run[0].at <= t < run[|run| - 1].at
    requires forall i :: 0 <= i < |run| - 1 ==> StaysRight(run[i], truth)
    ensures (FlagAt(run, t) <==> truth(t)) || LastSecond(run, t)
    decreases |run|
  {
    var n := |run| - 1;
    var before := run[..n];
    if run[n - 1].at <= t {
      assert FlagAt(run, t) == FlagAt(before, t) == run[n - 1].verdict;
      if run[n].at - SECOND > t {
        assert StaysRight(run[n - 1], truth);
      }
    } else {
      FlagIsAccurate(before, truth, t);
      if LastSecond(before, t) {
        var i :| 0 < i < |before| && before[i].at - SECOND <= t < before[i].at;
        assert run[i].at - SECOND <= t < run[i].at;
      }
    }
  }

  // The flag is always the verdict of some reconcile at or before t.
  lemma {:induction false} FlagComesFrom(run: seq<Tick>, t: Time) returns (i: nat)
    requires Timely(run) && run[0].at <= t
    ensures i < |run| && run[i].at <= t && (i + 1 < |run| ==> t < run[i + 1].at)
    ensures FlagAt(run, t) == run[i].verdict
    decreases |run|
  {
    var n := |run| - 1;
    if n == 0 || run[n].at <= t {
      i := n;
    } else {
      i := FlagComesFrom(run[..n], t);
    }
  }

  lemma {:induction false} RunSorted(run: seq<Tick>, i: nat, j: nat)
    requires Timely(run) && i < j < |run|
    ensures run[i].at < run[j].at
    decreases j
  {
    if i + 1 < j {
      RunSorted(run, i, j - 1);
    }
  }

  // Between two reconciles, and more than a second before the later one, the flag is the verdict of the
  // earlier one and nothing excuses it.
  lemma FlagBetween(run: seq<Tick>, i: nat, t: Time)
    requires Timely(run) && i + 1 < |run| && run[i].at <= t < run[i + 1].at - SECOND
    ensures FlagAt(run, t) == run[i].verdict && !LastSecond(run, t)
  {
    hide FlagAt;
    if i > 0 {
      RunSorted(run, 0, i);
    }
    var k := FlagComesFrom(run, t);
    if k < i {
      if k + 1 < i {
        RunSorted(run, k + 1, i);
      }
    } else if i < k {
      if i + 1 < k {
        RunSorted(run, i + 1, k);
      }
    }
    forall j | 0 < j < |run|
      ensures !(run[j].at - SECOND <= t < run[j].at)
    {
      if j < i {
        RunSorted(run, j, i);
      } else if i + 1 < j {
        RunSorted(run, i + 1, j);
      }
    }
  }

  // Every reconcile comes exactly when the previous one asked for it.
  ghost predicate Prompt(run: seq<Tick>) {
    forall i :: 0 <= i < |run| - 1 ==> run[i + 1].at == run[i].at + run[i].requeueAfter
  }

  // Delays of more than a second make progress: n + 1 prompt reconciles span at least n seconds.
  lemma {:induction false} RunProgress(run: seq<Tick>)
    requires |run| > 0 && Prompt(run)
    requires forall i :: 0 <= i < |run| - 1 ==> run[i].requeueAfter > SECOND
    ensures run[|run| - 1].at >= run[0].at + (|run| - 1) * SECOND
    decreases |run|
  {
    var n := |run| - 1;
    if n > 0 {
      RunProgress(run[..n]);
    }
  }
}
