/** Decisions in plain terms: fields of the policies and of the request, and nothing in between. */
module EvaluatorMeaning {
  import opened Clock
  import opened DenyOrder
  import opened Evaluator
  import opened EvaluatorProperties
  import opened Policies
  import opened Wrappers
  import EvaluatorStability

  /* Which policies deny and which exceptions grant */

  // The labels of the object as a selector sees them.
  function ObjectLabels(input: Input): Labels {
    match input.objectLabels
    case None => map[]
    case Some(labels) => labels
  }

  ghost predicate FreezeBlocks(cf: ChangeFreeze, input: Input, nsLabels: Labels) {
    && input.kind in cf.target.kinds && input.action in cf.deny
    && Selects(cf.target.namespaceSelector, nsLabels)
    && Selects(cf.target.objectSelector, ObjectLabels(input))
    && cf.startTime <= input.now && input.now < cf.endTime
  }

  ghost predicate WindowBlocks(mw: MaintenanceWindow, input: Input, nsLabels: Labels) {
    && input.kind in mw.target.kinds && input.action in mw.deny && mw.mode == DenyOutsideWindows
    && Selects(mw.target.namespaceSelector, nsLabels)
    && Selects(mw.target.objectSelector, ObjectLabels(input))
    && !AnyOpen(input.now, mw.timezone, mw.windows)
  }

  // A required label that the object lacks must be required to be empty, and an object without any
  // labels meets no requirement at all.
  ghost predicate MeetsConstraints(c: Constraints, input: Input) {
    && (c.requireLabels != map[] ==> input.objectLabels.Some?)
    && (forall k :: k in c.requireLabels ==>
          c.requireLabels[k] == if k in ObjectLabels(input) then ObjectLabels(input)[k] else "")
    && (c.allowedUsers == [] || input.username in c.allowedUsers)
    && (c.allowedGroups == [] || exists g :: g in input.groups && g in c.allowedGroups)
  }

  ghost predicate ExceptionPasses(ex: FreezeException, input: Input, nsLabels: Labels) {
    && input.kind in ex.target.kinds && input.action in ex.allow
    && Selects(ex.target.namespaceSelector, nsLabels)
    && Selects(ex.target.objectSelector, ObjectLabels(input))
    && ex.activeFrom <= input.now && input.now < ex.activeTo
    && (ex.constraints.Some? ==> MeetsConstraints(ex.constraints.value, input))
  }

  lemma FreezeCandidateIs(cf: ChangeFreeze, input: Input, nsLabels: Labels)
    ensures FreezeCandidate(cf, input, nsLabels).Some? <==> FreezeBlocks(cf, input, nsLabels)
    ensures FreezeBlocks(cf, input, nsLabels) ==>
              FreezeCandidate(cf, input, nsLabels).value ==
                DenyCandidate(PolicyRef(ChangeFreezeKind, cf.name),
                              if cf.reason == "" then "ChangeFreeze is active" else cf.reason,
                              Some(cf.endTime), Some(cf.endTime), cf.name)
  {}

  lemma WindowCandidateIs(mw: MaintenanceWindow, input: Input, nsLabels: Labels)
    ensures WindowCandidate(mw, input, nsLabels).Some? <==> WindowBlocks(mw, input, nsLabels)
    ensures WindowBlocks(mw, input, nsLabels) ==>
              var c := WindowCandidate(mw, input, nsLabels).value;
              && c.ref == PolicyRef(MaintenanceWindowKind, mw.name) && c.id == mw.name && c.freezeEnd == None
              && c.reason == (if mw.reason == "" then "Outside maintenance window" else mw.reason)
              && IsBest(input.now, mw.timezone, mw.windows, None, c.nextAllowed)
  {
    hide AnyOpen, IsBest, ScanWindows;
    WindowCandidateMeaning(mw, input, nsLabels);
  }

  lemma GrantsIff(ex: FreezeException, input: Input, nsLabels: Labels)
    ensures Grants(ex, input, nsLabels) <==> ExceptionPasses(ex, input, nsLabels)
  {
    hide Selects;
    if ex.constraints.Some? {
      ConstraintsIff(ex.constraints.value, input);
    }
  }

  lemma ConstraintsIff(c: Constraints, input: Input)
    ensures ConstraintsHold(Some(c), input) <==> MeetsConstraints(c, input)
  {
    if ConstraintsHold(Some(c), input) && c.requireLabels != map[] {
      var k :| k in c.requireLabels;
      assert RequiredLabelHeld(k, c.requireLabels[k], input.objectLabels);
    }
    if MeetsConstraints(c, input) && c.allowedGroups != [] {
      var g :| g in input.groups && g in c.allowedGroups;
      assert g in c.allowedGroups && g in input.groups;
    }
  }

  /* The decision */

  ghost predicate SomethingBlocks(reader: Reader, input: Input, nsLabels: Labels)
    requires reader.freezes.Some? && reader.windows.Some?
  {
    || (exists i :: 0 <= i < |reader.freezes.value| && FreezeBlocks(reader.freezes.value[i], input, nsLabels))
    || (exists i :: 0 <= i < |reader.windows.value| && WindowBlocks(reader.windows.value[i], input, nsLabels))
  }

  ghost predicate SomethingPasses(reader: Reader, input: Input, nsLabels: Labels) {
    reader.exceptions.Some? &&
    exists i :: 0 <= i < |reader.exceptions.value| && ExceptionPasses(reader.exceptions.value[i], input, nsLabels)
  }

  lemma SomethingBlocksIff(reader: Reader, input: Input, nsLabels: Labels)
    requires reader.freezes.Some? && reader.windows.Some?
    ensures SomethingBlocks(reader, input, nsLabels) <==> exists c :: Denies(reader, input, nsLabels, c)
  {
    hide FreezeBlocks, WindowBlocks, FreezeCandidate, WindowCandidate;
    var cfs, mws := reader.freezes.value, reader.windows.value;
    forall i | 0 <= i < |cfs|
      ensures FreezeBlocks(cfs[i], input, nsLabels) <==> FreezeCandidate(cfs[i], input, nsLabels).Some?
    {
      FreezeCandidateIs(cfs[i], input, nsLabels);
    }
    forall i | 0 <= i < |mws|
      ensures WindowBlocks(mws[i], input, nsLabels) <==> WindowCandidate(mws[i], input, nsLabels).Some?
    {
      WindowCandidateIs(mws[i], input, nsLabels);
    }
    if i :| 0 <= i < |cfs| && FreezeBlocks(cfs[i], input, nsLabels) {
      var c := FreezeCandidate(cfs[i], input, nsLabels).value;
      assert FreezeDenies(cfs, input, nsLabels, c);
      assert Denies(reader, input, nsLabels, c);
    }
    if i :| 0 <= i < |mws| && WindowBlocks(mws[i], input, nsLabels) {
      var c := WindowCandidate(mws[i], input, nsLabels).value;
      assert WindowDenies(mws, input, nsLabels, c);
      assert Denies(reader, input, nsLabels, c);
    }
  }

  lemma SomethingPassesIff(reader: Reader, input: Input, nsLabels: Labels)
    ensures SomethingPasses(reader, input, nsLabels) <==> Granted(reader, input, nsLabels)
  {
    hide ExceptionPasses, Grants;
    if reader.exceptions.Some? {
      var exs := reader.exceptions.value;
      forall i | 0 <= i < |exs|
        ensures ExceptionPasses(exs[i], input, nsLabels) <==> Grants(exs[i], input, nsLabels)
      {
        GrantsIff(exs[i], input, nsLabels);
      }
    }
  }

  // Allowed exactly when no policy blocks the request or some exception passes it, with the fields that
  // go with each of the three outcomes.
  lemma AllowedExactly(reader: Reader, input: Input, nsLabels: Labels, clock: Time)
    requires Reached(reader, input, nsLabels)
    ensures var r := Decide(Some(reader), input, clock);
            && r.Ok?
            && var d := r.value;
            var blocked, passed := SomethingBlocks(reader, input, nsLabels), SomethingPasses(reader, input, nsLabels);
            && (d.allowed <==> !blocked || passed)
            && (d.matchedPolicy.Some? <==> blocked)
            && (d.matchedOverride.Some? <==> blocked && passed)
            && (!blocked ==> d.reason == "" && d.nextAllowedTime == None && d.freezeEndTime == None)
            && (blocked && passed ==> d.reason == "Exception granted")
            && d.evaluationTime == input.now && d.evaluatedNamespace == input.namespace
            && d.evaluatedKind == input.kind && d.evaluatedAction == input.action
  {
    hide Denies, Granted, SomethingBlocks, SomethingPasses, Chosen, Override, FreezeCandidates, WindowCandidates;
    AllowedIff(reader, input, nsLabels, clock);
    OverrideMeaning(reader, input, nsLabels);
    SomethingBlocksIff(reader, input, nsLabels);
    SomethingPassesIff(reader, input, nsLabels);
  }

  // The exception that is named is the first on the list that passes.
  lemma FirstPassingIsNamed(reader: Reader, input: Input, nsLabels: Labels, clock: Time, i: nat)
    requires Reached(reader, input, nsLabels) && SomethingBlocks(reader, input, nsLabels)
    requires reader.exceptions.Some? && i < |reader.exceptions.value|
    requires ExceptionPasses(reader.exceptions.value[i], input, nsLabels)
    requires forall j :: 0 <= j < i ==> !ExceptionPasses(reader.exceptions.value[j], input, nsLabels)
    ensures Decide(Some(reader), input, clock).Ok?
    ensures Decide(Some(reader), input, clock).value.matchedOverride ==
              Some(PolicyRef(FreezeExceptionKind, reader.exceptions.value[i].name))
  {
    hide ExceptionPasses, SomethingBlocks, Denies, Chosen, FirstOverride, FreezeCandidates, WindowCandidates;
    AllowedExactly(reader, input, nsLabels, clock);
    FirstOverrideIs(reader.exceptions.value, input, nsLabels, i);
  }

  lemma {:induction false} FirstOverrideIs(exs: seq<FreezeException>, input: Input, nsLabels: Labels, i: nat)
    requires i < |exs| && ExceptionPasses(exs[i], input, nsLabels)
    requires forall j :: 0 <= j < i ==> !ExceptionPasses(exs[j], input, nsLabels)
    ensures FirstOverride(exs, input, nsLabels) == Some(PolicyRef(FreezeExceptionKind, exs[i].name))
    decreases |exs|
  {
    hide ExceptionPasses, Grants;
    GrantsIff(exs[0], input, nsLabels);
    if i > 0 {
      FirstOverrideIs(exs[1..], input, nsLabels, i - 1);
    }
  }

  // What is reported is due no later than anything else that denies, and comes first by name then;
  // between a freeze and a maintenance window of one name and time it is the freeze.
  lemma DecisionIsEarliest(reader: Reader, input: Input, nsLabels: Labels, clock: Time, other: DenyCandidate)
    requires Reached(reader, input, nsLabels) && Denies(reader, input, nsLabels, other)
    ensures Decide(Some(reader), input, clock).Ok? && Decide(Some(reader), input, clock).value.matchedPolicy.Some?
    ensures var d := Decide(Some(reader), input, clock).value;
            var name := d.matchedPolicy.value.name;
            && (other.nextAllowed.Some? ==> d.nextAllowedTime.Some? && d.nextAllowedTime.value <= other.nextAllowed.value)
            && (d.nextAllowedTime == other.nextAllowed ==> !Precedes(other.ref.name, name))
            && (UniqueNames(reader) && d.nextAllowedTime == other.nextAllowed && name == other.ref.name ==>
                  other.ref.kind == ChangeFreezeKind ==> d.matchedPolicy.value.kind == ChangeFreezeKind)
  {
    hide Denies, Precedes, Chosen, Override, FreezeCandidates, WindowCandidates, UniqueNames, WellListed;
    var denies := DenyCandidates(reader, input, nsLabels).value;
    CandidatesAre(reader, input, nsLabels, other);
    ChosenIsEarliest(denies, other);
    CandidatesAre(reader, input, nsLabels, Chosen(denies));
    NamedByPolicy(reader, input, nsLabels, other);
    NamedByPolicy(reader, input, nsLabels, Chosen(denies));
    if UniqueNames(reader) {
      EvaluatorStability.CandidatesWellListed(reader, input, nsLabels);
    }
  }

  lemma NamedByPolicy(reader: Reader, input: Input, nsLabels: Labels, c: DenyCandidate)
    requires Denies(reader, input, nsLabels, c)
    ensures c.id == c.ref.name && (c.ref.kind == ChangeFreezeKind || c.ref.kind == MaintenanceWindowKind)
  {
    hide ScanWindows, FreezeApplies, WindowApplies;
  }

  /* What a decision does not depend on */

  // A policy whose namespace selector rejects the namespace is never matched, whatever the object.
  lemma NamespaceMustMatch(input: Input, nsLabels: Labels)
    ensures forall cf: ChangeFreeze :: !Selects(cf.target.namespaceSelector, nsLabels) ==> FreezeCandidate(cf, input, nsLabels).None?
    ensures forall mw: MaintenanceWindow :: !Selects(mw.target.namespaceSelector, nsLabels) ==> WindowCandidate(mw, input, nsLabels).None?
    ensures forall ex: FreezeException :: !Selects(ex.target.namespaceSelector, nsLabels) ==> !Grants(ex, input, nsLabels)
  {
    hide ScanWindows, Selects;
  }

  // Without an object selector the labels of the object change no candidate.
  lemma ObjectLabelsDoNotMatter(input: Input, nsLabels: Labels, labels: Option<Labels>)
    ensures forall cf: ChangeFreeze :: cf.target.objectSelector.None? ==>
              FreezeCandidate(cf, input, nsLabels) == FreezeCandidate(cf, input.(objectLabels := labels), nsLabels)
    ensures forall mw: MaintenanceWindow :: mw.target.objectSelector.None? ==>
              WindowCandidate(mw, input, nsLabels) == WindowCandidate(mw, input.(objectLabels := labels), nsLabels)
  {
    hide ScanWindows;
  }

  // And without a namespace selector those of the namespace do not.
  lemma NamespaceLabelsDoNotMatter(input: Input, nsLabels: Labels, labels: Labels)
    ensures forall cf: ChangeFreeze :: cf.target.namespaceSelector.None? ==>
              FreezeCandidate(cf, input, nsLabels) == FreezeCandidate(cf, input, labels)
    ensures forall mw: MaintenanceWindow :: mw.target.namespaceSelector.None? ==>
              WindowCandidate(mw, input, nsLabels) == WindowCandidate(mw, input, labels)
  {
    hide ScanWindows;
  }

  /* When a decision is reached */

  // The namespace's labels are those the request brings, or else those of the namespace it names.
  ghost predicate LabelsKnown(reader: Reader, input: Input) {
    input.namespaceTags.Some? || (input.namespace != "" && input.namespace in reader.namespaces)
  }

  lemma ReachedIff(reader: Reader, input: Input, nsLabels: Labels)
    ensures Reached(reader, input, nsLabels) <==>
              && input.now != ZERO_TIME && LabelsKnown(reader, input)
              && nsLabels == (if input.namespaceTags.Some? then input.namespaceTags.value else reader.namespaces[input.namespace])
              && reader.freezes.Some? && reader.windows.Some?
  {}

  // The errors, each with its condition; they exclude each other, and otherwise there is a decision.
  lemma DecideFailsIff(client: Option<Reader>, input: Input, clock: Time)
    ensures var r := Decide(client, input, clock);
            && (r == Err(ClientRequired) <==> client == None)
            && (r == Err(NamespaceRequired) <==> client.Some? && input.namespaceTags.None? && input.namespace == "")
            && (r == Err(GetNamespaceFailed) <==>
                  && client.Some? && input.namespaceTags.None? && input.namespace != ""
                  && input.namespace !in client.value.namespaces)
            && (r == Err(ListFreezesFailed) <==>
                  client.Some? && LabelsKnown(client.value, input) && client.value.freezes.None?)
            && (r == Err(ListWindowsFailed) <==>
                  && client.Some? && LabelsKnown(client.value, input)
                  && client.value.freezes.Some? && client.value.windows.None?)
            && (r.Ok? <==>
                  && client.Some? && LabelsKnown(client.value, input)
                  && client.value.freezes.Some? && client.value.windows.Some?)
  {
    hide Verdict, FreezeCandidates, WindowCandidates, Override;
  }

  // A request without a time is decided at the clock's; a request with one ignores the clock.
  lemma ClockMattersIff(client: Option<Reader>, input: Input, clock: Time, clock': Time)
    ensures input.now == ZERO_TIME && clock != ZERO_TIME ==>
              Decide(client, input, clock) == Decide(client, input.(now := clock), clock')
    ensures input.now != ZERO_TIME ==> Decide(client, input, clock) == Decide(client, input, clock')
  {
    hide Verdict, DenyCandidates, Override;
  }
}
