/** The admission-time policy evaluator. */
module Evaluator {
  import opened Clock
  import opened CronWindows
  import opened DenyOrder
  import opened Policies
  import opened Wrappers

  datatype Input = Input(
    now: Time,
    namespace: string,
    namespaceTags: Option<Labels>,
    kind: TargetKind,
    action: Action,
    objectLabels: Option<Labels>,
    username: string,
    groups: seq<string>)

  datatype Decision = Decision(
    allowed: bool,
    matchedPolicy: Option<PolicyRef>,
    matchedOverride: Option<PolicyRef>,
    reason: string,
    nextAllowedTime: Option<Time>,
    freezeEndTime: Option<Time>,
    evaluationTime: Time,
    evaluatedNamespace: string,
    evaluatedKind: TargetKind,
    evaluatedAction: Action)

  datatype EvaluateError =
    ClientRequired | NamespaceRequired | GetNamespaceFailed | ListFreezesFailed | ListWindowsFailed

  // What the API server answers; None is a failed list.
  datatype Reader = Reader(
    namespaces: map<string, Labels>,
    freezes: Option<seq<ChangeFreeze>>,
    windows: Option<seq<MaintenanceWindow>>,
    exceptions: Option<seq<FreezeException>>)

  /* One policy against one request */

  function LabelsOf(l: Option<Labels>): Labels {
    if l.Some? then l.value else map[]
  }

  predicate TargetMatches(t: TargetSpec, nsLabels: Labels, input: Input) {
    && input.kind in t.kinds
    && Selects(t.namespaceSelector, nsLabels)
    && Selects(t.objectSelector, LabelsOf(input.objectLabels))
  }

  function FirstNonEmpty(v: string, fallback: string): string {
    if v != "" then v else fallback
  }

  // The policy's target and rules cover the request.
  predicate FreezeApplies(cf: ChangeFreeze, input: Input, nsLabels: Labels) {
    TargetMatches(cf.target, nsLabels, input) && input.action in cf.deny
  }

  predicate WindowApplies(mw: MaintenanceWindow, input: Input, nsLabels: Labels) {
    TargetMatches(mw.target, nsLabels, input) && input.action in mw.deny && mw.mode == DenyOutsideWindows
  }

  function FreezeCandidate(cf: ChangeFreeze, input: Input, nsLabels: Labels): Option<DenyCandidate> {
    if FreezeApplies(cf, input, nsLabels) && cf.startTime <= input.now < cf.endTime then
      Some(DenyCandidate(PolicyRef(ChangeFreezeKind, cf.name),
                         FirstNonEmpty(cf.reason, "ChangeFreeze is active"),
                         Some(cf.endTime), Some(cf.endTime), cf.name))
    else None
  }

  // Inside some window, or outside all with the earliest next start among those that evaluate.
  datatype WindowScan = Inside | Outside(bestNext: Option<Time>)

  function ScanWindows(now: Time, zone: Timezone, ws: seq<WindowSpec>, best: Option<Time>): WindowScan
    decreases |ws|
  {
    if |ws| == 0 then Outside(best)
    else
      match Eval(now, zone, ws[0])
      case Err(_) => ScanWindows(now, zone, ws[1..], best)
      case Ok(res) =>
        if res.active then Inside
        else if res.nextStart.Some? && (best.None? || res.nextStart.value < best.value)
        then ScanWindows(now, zone, ws[1..], res.nextStart)
        else ScanWindows(now, zone, ws[1..], best)
  }

  function WindowCandidate(mw: MaintenanceWindow, input: Input, nsLabels: Labels): Option<DenyCandidate> {
    if !WindowApplies(mw, input, nsLabels) then None
    else
      match ScanWindows(input.now, mw.timezone, mw.windows, None)
      case Inside => None
      case Outside(next) =>
        Some(DenyCandidate(PolicyRef(MaintenanceWindowKind, mw.name),
                           FirstNonEmpty(mw.reason, "Outside maintenance window"),
                           next, None, mw.name))
  }

  predicate ConstraintsHold(c: Option<Constraints>, input: Input) {
    match c
    case None => true
    case Some(c) =>
      && (forall k | k in c.requireLabels :: RequiredLabelHeld(k, c.requireLabels[k], input.objectLabels))
      && (|c.allowedUsers| > 0 ==> input.username in c.allowedUsers)
      && (|c.allowedGroups| > 0 ==> exists g | g in c.allowedGroups :: g in input.groups)
  }

  // A missing label reads as the empty string, but absent labels hold nothing.
  predicate RequiredLabelHeld(key: string, value: string, labels: Option<Labels>) {
    labels.Some? && value == if key in labels.value then labels.value[key] else ""
  }

  predicate Grants(ex: FreezeException, input: Input, nsLabels: Labels) {
    && TargetMatches(ex.target, nsLabels, input)
    && input.action in ex.allow
    && ex.activeFrom <= input.now < ex.activeTo
    && ConstraintsHold(ex.constraints, input)
  }

  /* Lists of policies */

  function AsList(c: Option<DenyCandidate>): seq<DenyCandidate> {
    if c.Some? then [c.value] else []
  }

  function FreezeCandidates(cfs: seq<ChangeFreeze>, input: Input, nsLabels: Labels): seq<DenyCandidate>
    decreases |cfs|
  {
    if |cfs| == 0 then []
    else FreezeCandidates(cfs[..|cfs| - 1], input, nsLabels) + AsList(FreezeCandidate(cfs[|cfs| - 1], input, nsLabels))
  }

  function WindowCandidates(mws: seq<MaintenanceWindow>, input: Input, nsLabels: Labels): seq<DenyCandidate>
    decreases |mws|
  {
    if |mws| == 0 then []
    else WindowCandidates(mws[..|mws| - 1], input, nsLabels) + AsList(WindowCandidate(mws[|mws| - 1], input, nsLabels))
  }

  function FirstOverride(exs: seq<FreezeException>, input: Input, nsLabels: Labels): Option<PolicyRef>
    decreases |exs|
  {
    if |exs| == 0 then None
    else if Grants(exs[0], input, nsLabels) then Some(PolicyRef(FreezeExceptionKind, exs[0].name))
    else FirstOverride(exs[1..], input, nsLabels)
  }

  /* The decision */

  function NamespaceLabels(reader: Reader, input: Input): Result<Labels, EvaluateError> {
    if input.namespaceTags.Some? then Ok(input.namespaceTags.value)
    else if input.namespace == "" then Err(NamespaceRequired)
    else if input.namespace in reader.namespaces then Ok(reader.namespaces[input.namespace])
    else Err(GetNamespaceFailed)
  }

  function DenyCandidates(reader: Reader, input: Input, nsLabels: Labels): Result<seq<DenyCandidate>, EvaluateError> {
    if reader.freezes.None? then Err(ListFreezesFailed)
    else if reader.windows.None? then Err(ListWindowsFailed)
    else Ok(FreezeCandidates(reader.freezes.value, input, nsLabels) + WindowCandidates(reader.windows.value, input, nsLabels))
  }

  // A failed list of exceptions grants nothing.
  function Override(reader: Reader, input: Input, nsLabels: Labels): Option<PolicyRef> {
    if reader.exceptions.None? then None else FirstOverride(reader.exceptions.value, input, nsLabels)
  }

  function Verdict(input: Input, denies: seq<DenyCandidate>, override: Option<PolicyRef>): Decision {
    if |denies| == 0 then
      Decision(true, None, None, "", None, None, input.now, input.namespace, input.kind, input.action)
    else
      var chosen := Chosen(denies);
      Decision(override.Some?, Some(chosen.ref), override,
               if override.Some? then "Exception granted" else chosen.reason,
               chosen.nextAllowed, chosen.freezeEnd,
               input.now, input.namespace, input.kind, input.action)
  }

  // A request without a time is decided at the clock's.
  function WithTime(input: Input, clock: Time): Input {
    if input.now == ZERO_TIME then input.(now := clock) else input
  }

  function Decide(client: Option<Reader>, input: Input, clock: Time): Result<Decision, EvaluateError> {
    if client.None? then Err(ClientRequired)
    else
      var reader, timed := client.value, WithTime(input, clock);
      match NamespaceLabels(reader, timed)
      case Err(e) => Err(e)
      case Ok(nsLabels) =>
        match DenyCandidates(reader, timed, nsLabels)
        case Err(e) => Err(e)
        case Ok(denies) => Ok(Verdict(timed, denies, Override(reader, timed, nsLabels)))
  }

  /* The program's loops */

  method CollectChangeFreezes(cfs: seq<ChangeFreeze>, input: Input, nsLabels: Labels)
    returns (denies: seq<DenyCandidate>)
    ensures denies == FreezeCandidates(cfs, input, nsLabels)
  {
    denies := [];
    for i := 0 to |cfs|
      invariant denies == FreezeCandidates(cfs[..i], input, nsLabels)
    {
      assert cfs[..i + 1][..i] == cfs[..i];
      var cf := cfs[i];
      if !TargetMatches(cf.target, nsLabels, input) {
        continue;
      }
      if input.action !in cf.deny {
        continue;
      }
      if !(input.now < cf.endTime) || input.now < cf.startTime {
        continue;
      }
      var end := cf.endTime;
      denies := denies + [DenyCandidate(PolicyRef(ChangeFreezeKind, cf.name),
                                        FirstNonEmpty(cf.reason, "ChangeFreeze is active"),
                                        Some(end), Some(end), cf.name)];
    }
    assert cfs[..|cfs|] == cfs;
  }

  // The inner loop over one policy's windows: leaves at the first open one, skips failures.
  method OutsideWindows(now: Time, zone: Timezone, ws: seq<WindowSpec>)
    returns (inAny: bool, bestNext: Option<Time>)
    ensures inAny <==> ScanWindows(now, zone, ws, None).Inside?
    ensures !inAny ==> ScanWindows(now, zone, ws, None) == Outside(bestNext)
  {
    hide EvalWindow;
    inAny, bestNext := false, None;
    var i := 0;
    assert ws[0..] == ws;
    while i < |ws|
      invariant i <= |ws| && !inAny
      invariant ScanWindows(now, zone, ws, None) == ScanWindows(now, zone, ws[i..], bestNext)
    {
      var res := EvalCronWindow(now, zone, ws[i].schedule, ws[i].duration);
      assert ws[i..][1..] == ws[i + 1..];
      if res.Err? {
        i := i + 1;
        continue;
      }
      if res.value.active {
        inAny := true;
        break;
      }
      if res.value.nextStart.Some? && (bestNext.None? || res.value.nextStart.value < bestNext.value) {
        bestNext := Some(res.value.nextStart.value);
      }
      i := i + 1;
    }
  }

  method CollectMaintenanceWindows(mws: seq<MaintenanceWindow>, input: Input, nsLabels: Labels)
    returns (denies: seq<DenyCandidate>)
    ensures denies == WindowCandidates(mws, input, nsLabels)
  {
    hide ScanWindows;
    denies := [];
    for i := 0 to |mws|
      invariant denies == WindowCandidates(mws[..i], input, nsLabels)
    {
      assert mws[..i + 1][..i] == mws[..i];
      var mw := mws[i];
      if !TargetMatches(mw.target, nsLabels, input) {
        continue;
      }
      if input.action !in mw.deny {
        continue;
      }
      if mw.mode != DenyOutsideWindows {
        continue;
      }
      var inAny, bestNext := OutsideWindows(input.now, mw.timezone, mw.windows);
      if !inAny {
        denies := denies + [DenyCandidate(PolicyRef(MaintenanceWindowKind, mw.name),
                                          FirstNonEmpty(mw.reason, "Outside maintenance window"),
                                          bestNext, None, mw.name)];
      }
    }
    assert mws[..|mws|] == mws;
  }

  method ConstraintsPass(constraints: Option<Constraints>, input: Input) returns (pass: bool)
    ensures pass <==> ConstraintsHold(constraints, input)
  {
    if constraints.None? {
      return true;
    }
    var c := constraints.value;
    var left := c.requireLabels.Keys;
    while left != {}
      invariant left <= c.requireLabels.Keys
      invariant forall k :: k in c.requireLabels.Keys - left ==>
                  RequiredLabelHeld(k, c.requireLabels[k], input.objectLabels)
      decreases |left|
    {
      var k :| k in left;
      left := left - {k};
      if input.objectLabels.None? {
        return false;
      }
      var labels := input.objectLabels.value;
      if (if k in labels then labels[k] else "") != c.requireLabels[k] {
        return false;
      }
    }
    if |c.allowedUsers| > 0 && input.username !in c.allowedUsers {
      return false;
    }
    if |c.allowedGroups| > 0 {
      var allowed := false;
      for i := 0 to |c.allowedGroups|
        invariant allowed ==> exists g :: g in c.allowedGroups && g in input.groups
        invariant !allowed ==> forall j :: 0 <= j < i ==> c.allowedGroups[j] !in input.groups
      {
        if c.allowedGroups[i] in input.groups {
          allowed := true;
          break;
        }
      }
      if !allowed {
        return false;
      }
    }
    return true;
  }

  method CheckExceptionOverride(reader: Reader, input: Input, nsLabels: Labels) returns (r: Option<PolicyRef>)
    ensures r == Override(reader, input, nsLabels)
  {
    hide ConstraintsHold;
    if reader.exceptions.None? {
      return None;
    }
    var exs := reader.exceptions.value;
    assert exs[0..] == exs;
    for i := 0 to |exs|
      invariant FirstOverride(exs, input, nsLabels) == FirstOverride(exs[i..], input, nsLabels)
    {
      var ex := exs[i];
      assert exs[i..][1..] == exs[i + 1..];
      if !TargetMatches(ex.target, nsLabels, input) {
        continue;
      }
      if input.action !in ex.allow {
        continue;
      }
      if !(input.now < ex.activeTo) || input.now < ex.activeFrom {
        continue;
      }
      var pass := ConstraintsPass(ex.constraints, input);
      if !pass {
        continue;
      }
      return Some(PolicyRef(FreezeExceptionKind, ex.name));
    }
    return None;
  }

  method Evaluate(client: Option<Reader>, input: Input, clock: Time) returns (r: Result<Decision, EvaluateError>)
    ensures r == Decide(client, input, clock)
  {
    hide Chosen, WindowCandidates, FreezeCandidates, FirstOverride;
    if client.None? {
      return Err(ClientRequired);
    }
    var reader, timed := client.value, WithTime(input, clock);
    var ns := NamespaceLabels(reader, timed);
    if ns.Err? {
      return Err(ns.error);
    }
    var dec := Decision(true, None, None, "", None, None, timed.now, timed.namespace, timed.kind, timed.action);
    if reader.freezes.None? {
      return Err(ListFreezesFailed);
    }
    var freezeDenies := CollectChangeFreezes(reader.freezes.value, timed, ns.value);
    if reader.windows.None? {
      return Err(ListWindowsFailed);
    }
    var windowDenies := CollectMaintenanceWindows(reader.windows.value, timed, ns.value);
    var denies := freezeDenies + windowDenies;
    if |denies| == 0 {
      return Ok(dec);
    }
    var matched := new DenyCandidate[|denies|](i requires 0 <= i < |denies| => denies[i]);
    assert matched[..] == denies;
    var chosen := SelectDenyCandidate(matched);
    var override := CheckExceptionOverride(reader, timed, ns.value);
    if override.Some? {
      dec := dec.(matchedPolicy := Some(chosen.ref), matchedOverride := override, reason := "Exception granted",
                  nextAllowedTime := chosen.nextAllowed, freezeEndTime := chosen.freezeEnd);
      return Ok(dec);
    }
    dec := dec.(allowed := false, matchedPolicy := Some(chosen.ref), reason := chosen.reason,
                nextAllowedTime := chosen.nextAllowed, freezeEndTime := chosen.freezeEnd);
    return Ok(dec);
  }
}
