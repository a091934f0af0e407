/** What a decision means: exactly when it denies, what its promise is worth, what it does not depend on. */
module EvaluatorProperties {
  import opened Clock
  import opened CronWindows
  import opened DenyOrder
  import opened Evaluator
  import opened Policies
  import opened Schedules
  import opened WindowFold
  import opened WindowRun
  import opened Wrappers

  /* The candidates */

  ghost predicate FreezeDenies(cfs: seq<ChangeFreeze>, input: Input, nsLabels: Labels, c: DenyCandidate) {
    exists i :: 0 <= i < |cfs| && FreezeCandidate(cfs[i], input, nsLabels) == Some(c)
  }

  ghost predicate WindowDenies(mws: seq<MaintenanceWindow>, input: Input, nsLabels: Labels, c: DenyCandidate) {
    exists i :: 0 <= i < |mws| && WindowCandidate(mws[i], input, nsLabels) == Some(c)
  }

  // c is the candidate of a freeze or of a maintenance window that denies the request.
  ghost predicate Denies(reader: Reader, input: Input, nsLabels: Labels, c: DenyCandidate) {
    || (reader.freezes.Some? && FreezeDenies(reader.freezes.value, input, nsLabels, c))
    || (reader.windows.Some? && WindowDenies(reader.windows.value, input, nsLabels, c))
  }

  lemma FreezeDeniesSplit(cfs: seq<ChangeFreeze>, input: Input, nsLabels: Labels, c: DenyCandidate)
    ensures FreezeDenies(cfs, input, nsLabels, c) <==>
              var n := |cfs| - 1;
              n >= 0 && (FreezeDenies(cfs[..n], input, nsLabels, c) || FreezeCandidate(cfs[n], input, nsLabels) == Some(c))
  {
    hide FreezeCandidate;
    if |cfs| > 0 {
      var front := cfs[..|cfs| - 1];
      assert forall i :: 0 <= i < |front| ==> front[i] == cfs[i];
      if FreezeDenies(front, input, nsLabels, c) {
        var i :| 0 <= i < |front| && FreezeCandidate(front[i], input, nsLabels) == Some(c);
        assert FreezeCandidate(cfs[i], input, nsLabels) == Some(c);
      }
    }
  }

  lemma {:induction false} FreezeCandidatesAre(cfs: seq<ChangeFreeze>, input: Input, nsLabels: Labels, c: DenyCandidate)
    ensures c in FreezeCandidates(cfs, input, nsLabels) <==> FreezeDenies(cfs, input, nsLabels, c)
    decreases |cfs|
  {
    hide FreezeCandidate, FreezeDenies;
    FreezeDeniesSplit(cfs, input, nsLabels, c);
    if |cfs| > 0 {
      FreezeCandidatesAre(cfs[..|cfs| - 1], input, nsLabels, c);
    }
  }

  lemma WindowDeniesSplit(mws: seq<MaintenanceWindow>, input: Input, nsLabels: Labels, c: DenyCandidate)
    ensures WindowDenies(mws, input, nsLabels, c) <==>
              var n := |mws| - 1;
              n >= 0 && (WindowDenies(mws[..n], input, nsLabels, c) || WindowCandidate(mws[n], input, nsLabels) == Some(c))
  {
    hide WindowCandidate;
    if |mws| > 0 {
      var front := mws[..|mws| - 1];
      assert forall i :: 0 <= i < |front| ==> front[i] == mws[i];
      if WindowDenies(front, input, nsLabels, c) {
        var i :| 0 <= i < |front| && WindowCandidate(front[i], input, nsLabels) == Some(c);
        assert WindowCandidate(mws[i], input, nsLabels) == Some(c);
      }
    }
  }

  lemma {:induction false} WindowCandidatesAre(mws: seq<MaintenanceWindow>, input: Input, nsLabels: Labels, c: DenyCandidate)
    ensures c in WindowCandidates(mws, input, nsLabels) <==> WindowDenies(mws, input, nsLabels, c)
    decreases |mws|
  {
    hide WindowCandidate, WindowDenies;
    WindowDeniesSplit(mws, input, nsLabels, c);
    if |mws| > 0 {
      WindowCandidatesAre(mws[..|mws| - 1], input, nsLabels, c);
    }
  }

  lemma CandidatesAre(reader: Reader, input: Input, nsLabels: Labels, c: DenyCandidate)
    requires DenyCandidates(reader, input, nsLabels).Ok?
    ensures c in DenyCandidates(reader, input, nsLabels).value <==> Denies(reader, input, nsLabels, c)
  {
    hide FreezeDenies, WindowDenies, FreezeCandidates, WindowCandidates;
    FreezeCandidatesAre(reader.freezes.value, input, nsLabels, c);
    WindowCandidatesAre(reader.windows.value, input, nsLabels, c);
  }

  // The scan with its early exit and skipped failures, in one sentence.
  ghost predicate IsBest(now: Time, zone: Timezone, ws: seq<WindowSpec>, best: Option<Time>, next: Option<Time>) {
    if next.None? then best.None? && forall i :: 0 <= i < |ws| ==> Eval(now, zone, ws[i]).Err?
    else
      && (best == next || exists i :: 0 <= i < |ws| && Eval(now, zone, ws[i]).Ok? && NextOf(now, zone, ws[i]) == next.value)
      && (best.Some? ==> next.value <= best.value)
      && (forall i :: 0 <= i < |ws| && Eval(now, zone, ws[i]).Ok? ==> next.value <= NextOf(now, zone, ws[i]))
  }

  lemma {:induction false} ScanWindowsMeaning(now: Time, zone: Timezone, ws: seq<WindowSpec>, best: Option<Time>)
    ensures ScanWindows(now, zone, ws, best).Inside? <==> AnyOpen(now, zone, ws)
    ensures ScanWindows(now, zone, ws, best).Outside? ==>
              IsBest(now, zone, ws, best, ScanWindows(now, zone, ws, best).bestNext)
    decreases |ws|
  {
    hide EvalWindow;
    if |ws| > 0 {
      var rest := ws[1..];
      assert forall i :: 1 <= i < |ws| ==> ws[i] == rest[i - 1];
      assert AnyOpen(now, zone, ws) <==> IsOpen(now, zone, ws[0]) || AnyOpen(now, zone, rest) by {
        if AnyOpen(now, zone, rest) {
          var i :| 0 <= i < |rest| && IsOpen(now, zone, rest[i]);
          assert IsOpen(now, zone, ws[i + 1]);
        }
      }
      match Eval(now, zone, ws[0])
      case Err(_) =>
        ScanWindowsMeaning(now, zone, rest, best);
        BestOfRest(now, zone, ws, best, best, ScanWindows(now, zone, rest, best));
      case Ok(res) =>
        EvalShape(now, zone, ws[0]);
        var better := if best.None? || res.nextStart.value < best.value then res.nextStart else best;
        if !res.active {
          ScanWindowsMeaning(now, zone, rest, better);
          BestOfRest(now, zone, ws, best, better, ScanWindows(now, zone, rest, better));
        }
    }
  }

  lemma BestOfRest(now: Time, zone: Timezone, ws: seq<WindowSpec>, best: Option<Time>, better: Option<Time>, scan: WindowScan)
    requires |ws| > 0
    requires scan.Outside? ==> IsBest(now, zone, ws[1..], better, scan.bestNext)
    requires match Eval(now, zone, ws[0])
             case Err(_) => better == best
             case Ok(_) => better == if best.None? || NextOf(now, zone, ws[0]) < best.value
                                     then Some(NextOf(now, zone, ws[0])) else best
    ensures scan.Outside? ==> IsBest(now, zone, ws, best, scan.bestNext)
  {
    hide EvalWindow;
    if scan.Outside? {
      var rest, next := ws[1..], scan.bestNext;
      assert forall i :: 1 <= i < |ws| ==> ws[i] == rest[i - 1];
      if next.Some? && better != next {
        var i :| 0 <= i < |rest| && Eval(now, zone, rest[i]).Ok? && NextOf(now, zone, rest[i]) == next.value;
        assert NextOf(now, zone, ws[i + 1]) == next.value;
      }
    }
  }

  // A maintenance window denies exactly the requests it covers while no window is open; its candidate
  // promises the earliest next start among the windows that evaluate, or nothing if none does.
  lemma WindowCandidateMeaning(mw: MaintenanceWindow, input: Input, nsLabels: Labels)
    ensures WindowCandidate(mw, input, nsLabels).Some? <==>
              WindowApplies(mw, input, nsLabels) && !AnyOpen(input.now, mw.timezone, mw.windows)
    ensures WindowCandidate(mw, input, nsLabels).Some? ==>
              var c := WindowCandidate(mw, input, nsLabels).value;
              && c.ref == PolicyRef(MaintenanceWindowKind, mw.name) && c.id == mw.name && c.freezeEnd.None?
              && c.reason != "" && (mw.reason != "" ==> c.reason == mw.reason)
              && IsBest(input.now, mw.timezone, mw.windows, None, c.nextAllowed)
  {
    hide Eval, ScanWindows, IsBest, TargetMatches;
    ScanWindowsMeaning(input.now, mw.timezone, mw.windows, None);
  }

  /* Decisions */

  ghost predicate Granted(reader: Reader, input: Input, nsLabels: Labels) {
    reader.exceptions.Some? &&
    exists i :: 0 <= i < |reader.exceptions.value| && Grants(reader.exceptions.value[i], input, nsLabels)
  }

  lemma {:induction false} FirstOverrideMeaning(exs: seq<FreezeException>, input: Input, nsLabels: Labels)
    ensures FirstOverride(exs, input, nsLabels).Some? <==>
            exists i :: 0 <= i < |exs| && Grants(exs[i], input, nsLabels)
    decreases |exs|
  {
    hide Grants;
    if |exs| > 0 && !Grants(exs[0], input, nsLabels) {
      FirstOverrideMeaning(exs[1..], input, nsLabels);
      assert forall i :: 1 <= i < |exs| ==> exs[i] == exs[1..][i - 1];
    }
  }

  lemma OverrideMeaning(reader: Reader, input: Input, nsLabels: Labels)
    ensures Override(reader, input, nsLabels).Some? <==> Granted(reader, input, nsLabels)
  {
    hide Grants, FirstOverride;
    if reader.exceptions.Some? {
      FirstOverrideMeaning(reader.exceptions.value, input, nsLabels);
    }
  }

  // A decision is reached, at the input's own time, with these namespace labels.
  ghost predicate Reached(reader: Reader, input: Input, nsLabels: Labels) {
    && input.now != ZERO_TIME
    && NamespaceLabels(reader, input) == Ok(nsLabels)
    && reader.freezes.Some? && reader.windows.Some?
  }

  // Without failures: allowed exactly when no policy denies, or an exception grants.
  lemma AllowedIff(reader: Reader, input: Input, nsLabels: Labels, clock: Time)
    requires Reached(reader, input, nsLabels)
    ensures var r := Decide(Some(reader), input, clock);
            && r.Ok?
            && (r.value.allowed <==>
                  (forall c :: !Denies(reader, input, nsLabels, c)) || Granted(reader, input, nsLabels))
            && (r.value.matchedPolicy.Some? <==> exists c :: Denies(reader, input, nsLabels, c))
            && (r.value.matchedOverride.Some? ==> r.value.allowed)
            && (r.value.matchedPolicy.Some? && r.value.allowed ==> r.value.matchedOverride.Some?)
  {
    hide Denies, Granted, Chosen, Override, FreezeCandidates, WindowCandidates;
    OverrideMeaning(reader, input, nsLabels);
    var denies := DenyCandidates(reader, input, nsLabels).value;
    forall c
      ensures c in denies <==> Denies(reader, input, nsLabels, c)
    {
      CandidatesAre(reader, input, nsLabels, c);
    }
    if |denies| > 0 {
      assert denies[0] in denies;
    }
  }

  // The chosen candidate denies, none that denies comes before it, and the decision repeats it.
  lemma DecisionRepeatsChoice(reader: Reader, input: Input, nsLabels: Labels, clock: Time) returns (c: DenyCandidate)
    requires Reached(reader, input, nsLabels)
    requires Decide(Some(reader), input, clock).Ok? && Decide(Some(reader), input, clock).value.matchedPolicy.Some?
    ensures Denies(reader, input, nsLabels, c)
    ensures forall c' :: Denies(reader, input, nsLabels, c') ==> !Less(c', c)
    ensures var d := Decide(Some(reader), input, clock).value;
            && d.matchedPolicy == Some(c.ref) && d.nextAllowedTime == c.nextAllowed && d.freezeEndTime == c.freezeEnd
            && (!d.allowed ==> d.reason == c.reason)
  {
    hide Denies, Less, Chosen, Override, FreezeCandidates, WindowCandidates;
    var denies := DenyCandidates(reader, input, nsLabels).value;
    var i := ChosenIsFirstLeast(denies);
    c := denies[i];
    CandidatesAre(reader, input, nsLabels, c);
    forall c' | Denies(reader, input, nsLabels, c')
      ensures !Less(c', c)
    {
      CandidatesAre(reader, input, nsLabels, c');
    }
  }

  /* The promise of a denial */

  function At(input: Input, t: Time): Input {
    input.(now := t)
  }

  // The completeness conditions hold for every window that evaluates.
  ghost predicate EvaluatingComplete(now: Time, mw: MaintenanceWindow) {
    forall i :: 0 <= i < |mw.windows| && Eval(now, mw.timezone, mw.windows[i]).Ok? ==>
      WindowComplete(now, mw.timezone, mw.windows[i])
  }

  lemma FreezePromise(cf: ChangeFreeze, input: Input, nsLabels: Labels, t: Time)
    requires FreezeCandidate(cf, input, nsLabels).Some? && input.now <= t
    ensures var c := FreezeCandidate(cf, input, nsLabels).value;
            && c.nextAllowed.Some? && input.now < c.nextAllowed.value
            && FreezeCandidate(cf, At(input, t), nsLabels) == if t < c.nextAllowed.value then Some(c) else None
  {}

  // Outside every window now means outside every window until the reported next start.
  lemma WindowPromise(mw: MaintenanceWindow, input: Input, nsLabels: Labels, t: Time)
    requires WindowCandidate(mw, input, nsLabels).Some? && EvaluatingComplete(input.now, mw)
    requires var next := WindowCandidate(mw, input, nsLabels).value.nextAllowed;
             input.now <= t && (next.Some? ==> t < next.value)
    ensures WindowCandidate(mw, At(input, t), nsLabels).Some?
    ensures WindowCandidate(mw, At(input, t), nsLabels).value.ref == WindowCandidate(mw, input, nsLabels).value.ref
  {
    hide Eval, ScanWindows, WindowComplete;
    var zone, ws := mw.timezone, mw.windows;
    ScanWindowsMeaning(input.now, zone, ws, None);
    ScanWindowsMeaning(t, zone, ws, None);
    forall i | 0 <= i < |ws|
      ensures !IsOpen(t, zone, ws[i])
    {
      StaysClosed(mw, input.now, t, i);
    }
  }

  lemma StaysClosed(mw: MaintenanceWindow, now: Time, t: Time, i: nat)
    requires i < |mw.windows| && now <= t && EvaluatingComplete(now, mw)
    requires !IsOpen(now, mw.timezone, mw.windows[i])
    requires Eval(now, mw.timezone, mw.windows[i]).Ok? ==> t < NextOf(now, mw.timezone, mw.windows[i])
    ensures !IsOpen(t, mw.timezone, mw.windows[i])
  {
    hide Outcome, Complete, Covered;
    var zone, w := mw.timezone, mw.windows[i];
    if IsOpen(t, zone, w) {
      ActiveIsGenuine(t, zone, w.schedule, w.duration);
      NoStartBeforeNext(now, zone, w, t);
    }
  }

  // At the reported next start, if the conditions hold there too, a window is open.
  lemma WindowOpensOnTime(mw: MaintenanceWindow, input: Input, nsLabels: Labels)
    requires WindowCandidate(mw, input, nsLabels).Some? && EvaluatingComplete(input.now, mw)
    requires WindowCandidate(mw, input, nsLabels).value.nextAllowed.Some?
    requires EvaluatingComplete(WindowCandidate(mw, input, nsLabels).value.nextAllowed.value, mw)
    ensures var next := WindowCandidate(mw, input, nsLabels).value.nextAllowed.value;
            input.now < next && WindowCandidate(mw, At(input, next), nsLabels).None?
  {
    hide Eval, ScanWindows, WindowComplete;
    var zone, ws := mw.timezone, mw.windows;
    var next := WindowCandidate(mw, input, nsLabels).value.nextAllowed.value;
    ScanWindowsMeaning(input.now, zone, ws, None);
    ScanWindowsMeaning(next, zone, ws, None);
    var i :| 0 <= i < |ws| && Eval(input.now, zone, ws[i]).Ok? && NextOf(input.now, zone, ws[i]) == next;
    OpensAtNext(mw, input.now, i);
  }

  lemma OpensAtNext(mw: MaintenanceWindow, now: Time, i: nat)
    requires i < |mw.windows| && Eval(now, mw.timezone, mw.windows[i]).Ok?
    requires EvaluatingComplete(now, mw)
    requires EvaluatingComplete(NextOf(now, mw.timezone, mw.windows[i]), mw)
    ensures now < NextOf(now, mw.timezone, mw.windows[i])
    ensures IsOpen(NextOf(now, mw.timezone, mw.windows[i]), mw.timezone, mw.windows[i])
  {
    hide Outcome, Next, Count, MinuteOf, Valid;
    var zone, w := mw.timezone, mw.windows[i];
    var next, s := NextOf(now, zone, w), w.schedule.inZone(zone);
    EvalShape(now, zone, w);
    NextFound(s, w.duration, now);
    NextIsLeast(s, now);
    assert IsStart(s, next);
    ActiveIffCovered(next, zone, w.schedule, w.duration);
  }

  // Every window that evaluates is complete or lost.
  ghost predicate EvaluatingSettled(now: Time, mw: MaintenanceWindow) {
    forall i :: 0 <= i < |mw.windows| && Eval(now, mw.timezone, mw.windows[i]).Ok? ==>
      WindowComplete(now, mw.timezone, mw.windows[i]) || WindowLost(now, mw.timezone, mw.windows[i])
  }

  // The promised instant lies ahead if and only if no window of the policy is without a next start;
  // with one, the denial promises the zero time or earlier.
  lemma PromiseAheadIff(mw: MaintenanceWindow, input: Input, nsLabels: Labels)
    requires WindowCandidate(mw, input, nsLabels).Some? && EvaluatingSettled(input.now, mw) && input.now >= ZERO_TIME
    requires WindowCandidate(mw, input, nsLabels).value.nextAllowed.Some?
    ensures input.now < WindowCandidate(mw, input, nsLabels).value.nextAllowed.value <==>
            forall i :: 0 <= i < |mw.windows| && Eval(input.now, mw.timezone, mw.windows[i]).Ok? ==>
              NextOf(input.now, mw.timezone, mw.windows[i]) != ZERO_TIME
  {
    hide Eval, NextOf, WindowCandidate, WindowComplete, WindowLost;
    var now, zone, ws := input.now, mw.timezone, mw.windows;
    WindowCandidateMeaning(mw, input, nsLabels);
    forall i | 0 <= i < |ws| && Eval(now, zone, ws[i]).Ok?
      ensures now < NextOf(now, zone, ws[i]) || NextOf(now, zone, ws[i]) == ZERO_TIME
    {
      if WindowComplete(now, zone, ws[i]) {
        CompleteIsAhead(now, zone, ws[i]);
      } else {
        LostIsZero(now, zone, ws[i]);
      }
    }
  }

  // The policy that `ref` names, if it is a maintenance window, is complete at t.
  ghost predicate PolicyComplete(reader: Reader, ref: PolicyRef, t: Time) {
    reader.windows.Some? ==>
      forall i :: 0 <= i < |reader.windows.value| && ref == PolicyRef(MaintenanceWindowKind, reader.windows.value[i].name) ==>
        EvaluatingComplete(t, reader.windows.value[i])
  }

  // A denial with a next allowed time is a sound promise: until then the matched policy
  // still denies, so only an exception can allow.
  lemma PromiseIsSound(reader: Reader, input: Input, nsLabels: Labels, clock: Time, t: Time)
    requires Reached(reader, input, nsLabels) && input.now > ZERO_TIME
    requires Decide(Some(reader), input, clock).Ok?
    requires var d := Decide(Some(reader), input, clock).value;
             && !d.allowed && d.nextAllowedTime.Some? && d.matchedPolicy.Some?
             && PolicyComplete(reader, d.matchedPolicy.value, input.now)
             && input.now <= t < d.nextAllowedTime.value
    ensures var d, d' := Decide(Some(reader), input, clock).value, Decide(Some(reader), At(input, t), clock);
            && d'.Ok?
            && (exists c :: Denies(reader, At(input, t), nsLabels, c) && Some(c.ref) == d.matchedPolicy)
            && (d'.value.allowed ==> d'.value.matchedOverride.Some?)
  {
    hide Decide, FreezeCandidate, WindowCandidate, EvaluatingComplete;
    AllowedIff(reader, input, nsLabels, clock);
    var c := DecisionRepeatsChoice(reader, input, nsLabels, clock);
    AllowedIff(reader, At(input, t), nsLabels, clock);
    var cfs, mws, later := reader.freezes.value, reader.windows.value, At(input, t);
    if FreezeDenies(cfs, input, nsLabels, c) {
      var i :| 0 <= i < |cfs| && FreezeCandidate(cfs[i], input, nsLabels) == Some(c);
      FreezePromise(cfs[i], input, nsLabels, t);
      assert FreezeDenies(cfs, later, nsLabels, c);
      assert Denies(reader, later, nsLabels, c);
    } else {
      var i :| 0 <= i < |mws| && WindowCandidate(mws[i], input, nsLabels) == Some(c);
      WindowCandidateMeaning(mws[i], input, nsLabels);
      WindowPromise(mws[i], input, nsLabels, t);
      var c' := WindowCandidate(mws[i], later, nsLabels).value;
      assert WindowDenies(mws, later, nsLabels, c');
      assert Denies(reader, later, nsLabels, c');
    }
  }

  ghost predicate UniqueNames(reader: Reader) {
    && (reader.freezes.Some? ==> UniqueFreezes(reader.freezes.value))
    && (reader.windows.Some? ==> UniqueWindows(reader.windows.value))
  }

  ghost predicate UniqueFreezes(cfs: seq<ChangeFreeze>) {
    forall i, j :: 0 <= i < j < |cfs| ==> cfs[i].name != cfs[j].name
  }

  ghost predicate UniqueWindows(mws: seq<MaintenanceWindow>) {
    forall i, j :: 0 <= i < j < |mws| ==> mws[i].name != mws[j].name
  }

  // No policy but `ref` has a target and rules that cover the request.
  ghost predicate OnlyApplies(reader: Reader, input: Input, nsLabels: Labels, ref: PolicyRef) {
    && (reader.freezes.Some? ==> forall i :: 0 <= i < |reader.freezes.value| ==>
          FreezeApplies(reader.freezes.value[i], input, nsLabels) ==>
            ref == PolicyRef(ChangeFreezeKind, reader.freezes.value[i].name))
    && (reader.windows.Some? ==> forall i :: 0 <= i < |reader.windows.value| ==>
          WindowApplies(reader.windows.value[i], input, nsLabels) ==>
            ref == PolicyRef(MaintenanceWindowKind, reader.windows.value[i].name))
  }

  // The promise is tight: when no other policy covers the request, it is not denied at that time.
  lemma PromiseIsTight(reader: Reader, input: Input, nsLabels: Labels, clock: Time)
    requires Reached(reader, input, nsLabels) && input.now > ZERO_TIME && UniqueNames(reader)
    requires Decide(Some(reader), input, clock).Ok?
    requires var d := Decide(Some(reader), input, clock).value;
             && !d.allowed && d.nextAllowedTime.Some? && d.matchedPolicy.Some?
             && OnlyApplies(reader, input, nsLabels, d.matchedPolicy.value)
             && PolicyComplete(reader, d.matchedPolicy.value, input.now)
             && PolicyComplete(reader, d.matchedPolicy.value, d.nextAllowedTime.value)
    ensures var d := Decide(Some(reader), input, clock).value;
            var d' := Decide(Some(reader), At(input, d.nextAllowedTime.value), clock);
            && input.now < d.nextAllowedTime.value
            && d'.Ok? && d'.value.allowed && d'.value.matchedPolicy.None?
  {
    hide Decide, EvaluatingComplete;
    var c := DecisionRepeatsChoice(reader, input, nsLabels, clock);
    var next := c.nextAllowed.value;
    var later := At(input, next);
    NextIsLater(reader, input, nsLabels, c);
    AllowedIff(reader, later, nsLabels, clock);
    forall c'
      ensures !Denies(reader, later, nsLabels, c')
    {
      NotDeniedThen(reader, input, nsLabels, c, c');
    }
  }

  lemma NextIsLater(reader: Reader, input: Input, nsLabels: Labels, c: DenyCandidate)
    requires Denies(reader, input, nsLabels, c) && c.nextAllowed.Some?
    requires PolicyComplete(reader, c.ref, input.now) && PolicyComplete(reader, c.ref, c.nextAllowed.value)
    ensures input.now < c.nextAllowed.value
  {
    hide FreezeCandidate, WindowCandidate, EvaluatingComplete;
    if reader.freezes.Some? && FreezeDenies(reader.freezes.value, input, nsLabels, c) {
      var cfs := reader.freezes.value;
      var i :| 0 <= i < |cfs| && FreezeCandidate(cfs[i], input, nsLabels) == Some(c);
      FreezePromise(cfs[i], input, nsLabels, input.now);
    } else {
      var mws := reader.windows.value;
      var i :| 0 <= i < |mws| && WindowCandidate(mws[i], input, nsLabels) == Some(c);
      WindowCandidateMeaning(mws[i], input, nsLabels);
      WindowOpensOnTime(mws[i], input, nsLabels);
    }
  }

  lemma NotDeniedThen(reader: Reader, input: Input, nsLabels: Labels, c: DenyCandidate, c': DenyCandidate)
    requires Denies(reader, input, nsLabels, c) && c.nextAllowed.Some? && UniqueNames(reader)
    requires OnlyApplies(reader, input, nsLabels, c.ref)
    requires PolicyComplete(reader, c.ref, input.now) && PolicyComplete(reader, c.ref, c.nextAllowed.value)
    ensures !Denies(reader, At(input, c.nextAllowed.value), nsLabels, c')
  {
    hide ScanWindows, EvaluatingComplete, Selects;
    var later := At(input, c.nextAllowed.value);
    if reader.freezes.Some? {
      var cfs := reader.freezes.value;
      forall j | 0 <= j < |cfs|
        ensures FreezeCandidate(cfs[j], later, nsLabels).None?
      {
        if FreezeApplies(cfs[j], input, nsLabels) {
          var i :| 0 <= i < |cfs| && FreezeCandidate(cfs[i], input, nsLabels) == Some(c);
          FreezePromise(cfs[i], input, nsLabels, c.nextAllowed.value);
          assert i == j;
        }
      }
    }
    if reader.windows.Some? {
      var mws := reader.windows.value;
      forall j | 0 <= j < |mws|
        ensures WindowCandidate(mws[j], later, nsLabels).None?
      {
        if WindowApplies(mws[j], input, nsLabels) {
          var i :| 0 <= i < |mws| && WindowCandidate(mws[i], input, nsLabels) == Some(c);
          WindowOpensOnTime(mws[i], input, nsLabels);
          assert i == j;
        }
      }
    }
  }
}
