/** How a decision changes, and how it does not, when the listed policies change. */
module EvaluatorStability {
  import opened Clock
  import opened DenyOrder
  import opened Evaluator
  import opened EvaluatorProperties
  import opened Policies
  import opened Wrappers

  // The second reader lists every deny policy of the first, and otherwise the same.
  ghost predicate MoreDenies(r: Reader, r': Reader) {
    && r.namespaces == r'.namespaces && r.exceptions == r'.exceptions
    && r.freezes.Some? && r'.freezes.Some? && r.windows.Some? && r'.windows.Some?
    && (forall cf :: cf in r.freezes.value ==> cf in r'.freezes.value)
    && (forall mw :: mw in r.windows.value ==> mw in r'.windows.value)
  }

  lemma DeniesMonotone(r: Reader, r': Reader, input: Input, nsLabels: Labels, c: DenyCandidate)
    requires MoreDenies(r, r') && Denies(r, input, nsLabels, c)
    ensures Denies(r', input, nsLabels, c)
  {
    hide FreezeCandidate, WindowCandidate;
    if FreezeDenies(r.freezes.value, input, nsLabels, c) {
      var i :| 0 <= i < |r.freezes.value| && FreezeCandidate(r.freezes.value[i], input, nsLabels) == Some(c);
      assert r.freezes.value[i] in r'.freezes.value;
    } else {
      var i :| 0 <= i < |r.windows.value| && WindowCandidate(r.windows.value[i], input, nsLabels) == Some(c);
      assert r.windows.value[i] in r'.windows.value;
    }
  }

  // Adding deny policies never turns a denial into an admission.
  lemma MoreDeniesNeverAllow(r: Reader, r': Reader, input: Input, nsLabels: Labels, clock: Time)
    requires Reached(r, input, nsLabels) && MoreDenies(r, r')
    ensures var d, d' := Decide(Some(r), input, clock), Decide(Some(r'), input, clock);
            d.Ok? && d'.Ok? && (!d.value.allowed ==> !d'.value.allowed)
  {
    hide Decide, Denies, Grants;
    AllowedIff(r, input, nsLabels, clock);
    AllowedIff(r', input, nsLabels, clock);
    forall c | Denies(r, input, nsLabels, c)
      ensures Denies(r', input, nsLabels, c)
    {
      DeniesMonotone(r, r', input, nsLabels, c);
    }
  }

  // The second reader lists every exception of the first, and otherwise the same.
  ghost predicate MoreExceptions(r: Reader, r': Reader) {
    && r' == r.(exceptions := r'.exceptions)
    && r.exceptions.Some? && r'.exceptions.Some?
    && (forall ex :: ex in r.exceptions.value ==> ex in r'.exceptions.value)
  }

  lemma GrantedMonotone(r: Reader, r': Reader, input: Input, nsLabels: Labels)
    requires MoreExceptions(r, r') && Granted(r, input, nsLabels)
    ensures Granted(r', input, nsLabels)
  {
    hide Grants;
    var i :| 0 <= i < |r.exceptions.value| && Grants(r.exceptions.value[i], input, nsLabels);
    assert r.exceptions.value[i] in r'.exceptions.value;
  }

  // Adding exceptions never turns an admission into a denial.
  lemma MoreExceptionsNeverDeny(r: Reader, r': Reader, input: Input, nsLabels: Labels, clock: Time)
    requires Reached(r, input, nsLabels) && MoreExceptions(r, r')
    ensures var d, d' := Decide(Some(r), input, clock), Decide(Some(r'), input, clock);
            d.Ok? && d'.Ok? && (d.value.allowed ==> d'.value.allowed)
  {
    hide Decide, Granted, FreezeDenies, WindowDenies;
    AllowedIff(r, input, nsLabels, clock);
    AllowedIff(r', input, nsLabels, clock);
    if Granted(r, input, nsLabels) {
      GrantedMonotone(r, r', input, nsLabels);
    }
    assert forall c :: Denies(r, input, nsLabels, c) == Denies(r', input, nsLabels, c);
  }

  // Reordering the exceptions changes at most which override is named.
  lemma ExceptionOrderOnlyRenames(r: Reader, r': Reader, input: Input, nsLabels: Labels, clock: Time)
    requires Reached(r, input, nsLabels) && MoreExceptions(r, r') && MoreExceptions(r', r)
    ensures var d, d' := Decide(Some(r), input, clock), Decide(Some(r'), input, clock);
            && d.Ok? && d'.Ok?
            && d'.value == d.value.(matchedOverride := d'.value.matchedOverride)
            && (d.value.matchedOverride.Some? <==> d'.value.matchedOverride.Some?)
  {
    hide Granted, Override, Chosen, FreezeCandidates, WindowCandidates;
    OverrideMeaning(r, input, nsLabels);
    OverrideMeaning(r', input, nsLabels);
    if Granted(r, input, nsLabels) {
      GrantedMonotone(r, r', input, nsLabels);
    }
    if Granted(r', input, nsLabels) {
      GrantedMonotone(r', r, input, nsLabels);
    }
  }

  /* Order independence */

  // The listed candidates carry their policies' names, one kind, and no name twice.
  ghost predicate ListedFrom(s: seq<DenyCandidate>, kind: PolicyKind, names: seq<string>) {
    && (forall i :: 0 <= i < |s| ==> s[i].ref.kind == kind && s[i].id == s[i].ref.name && s[i].ref.name in names)
    && (forall i, j :: 0 <= i < j < |s| ==> s[i].ref.name != s[j].ref.name)
  }

  lemma ListedExtends(s: seq<DenyCandidate>, c: Option<DenyCandidate>, kind: PolicyKind, names: seq<string>, name: string)
    requires ListedFrom(s, kind, names) && name !in names
    requires c.Some? ==> c.value.ref == PolicyRef(kind, name) && c.value.id == name
    ensures ListedFrom(s + AsList(c), kind, names + [name])
  {}

  ghost function FreezeNames(cfs: seq<ChangeFreeze>): seq<string>
    decreases |cfs|
  {
    if |cfs| == 0 then [] else FreezeNames(cfs[..|cfs| - 1]) + [cfs[|cfs| - 1].name]
  }

  ghost function WindowNames(mws: seq<MaintenanceWindow>): seq<string>
    decreases |mws|
  {
    if |mws| == 0 then [] else WindowNames(mws[..|mws| - 1]) + [mws[|mws| - 1].name]
  }

  lemma {:induction false} FreezeNamesAre(cfs: seq<ChangeFreeze>, name: string)
    requires forall i :: 0 <= i < |cfs| ==> cfs[i].name != name
    ensures name !in FreezeNames(cfs)
    decreases |cfs|
  {
    if |cfs| > 0 {
      FreezeNamesAre(cfs[..|cfs| - 1], name);
    }
  }

  lemma {:induction false} WindowNamesAre(mws: seq<MaintenanceWindow>, name: string)
    requires forall i :: 0 <= i < |mws| ==> mws[i].name != name
    ensures name !in WindowNames(mws)
    decreases |mws|
  {
    if |mws| > 0 {
      WindowNamesAre(mws[..|mws| - 1], name);
    }
  }

  lemma {:induction false} FreezesListed(cfs: seq<ChangeFreeze>, input: Input, nsLabels: Labels)
    requires UniqueFreezes(cfs)
    ensures ListedFrom(FreezeCandidates(cfs, input, nsLabels), ChangeFreezeKind, FreezeNames(cfs))
    decreases |cfs|
  {
    hide ListedFrom, AsList;
    if |cfs| > 0 {
      var n := |cfs| - 1;
      FreezesListed(cfs[..n], input, nsLabels);
      FreezeNamesAre(cfs[..n], cfs[n].name);
      ListedExtends(FreezeCandidates(cfs[..n], input, nsLabels), FreezeCandidate(cfs[n], input, nsLabels),
                    ChangeFreezeKind, FreezeNames(cfs[..n]), cfs[n].name);
    } else {
      ListedEmpty(ChangeFreezeKind, FreezeNames(cfs));
    }
  }

  lemma {:induction false} WindowsListed(mws: seq<MaintenanceWindow>, input: Input, nsLabels: Labels)
    requires UniqueWindows(mws)
    ensures ListedFrom(WindowCandidates(mws, input, nsLabels), MaintenanceWindowKind, WindowNames(mws))
    decreases |mws|
  {
    hide ListedFrom, AsList;
    if |mws| > 0 {
      var n := |mws| - 1;
      WindowsListed(mws[..n], input, nsLabels);
      WindowNamesAre(mws[..n], mws[n].name);
      ListedExtends(WindowCandidates(mws[..n], input, nsLabels), WindowCandidate(mws[n], input, nsLabels),
                    MaintenanceWindowKind, WindowNames(mws[..n]), mws[n].name);
    } else {
      ListedEmpty(MaintenanceWindowKind, WindowNames(mws));
    }
  }

  lemma ListedEmpty(kind: PolicyKind, names: seq<string>)
    ensures ListedFrom([], kind, names)
  {}

  lemma CandidatesWellListed(reader: Reader, input: Input, nsLabels: Labels)
    requires UniqueNames(reader) && DenyCandidates(reader, input, nsLabels).Ok?
    ensures WellListed(DenyCandidates(reader, input, nsLabels).value)
  {
    hide FreezeCandidates, WindowCandidates;
    FreezesListed(reader.freezes.value, input, nsLabels);
    WindowsListed(reader.windows.value, input, nsLabels);
  }

  // The whole decision is independent of the order in which the API lists either kind of policy.
  lemma DecisionIgnoresListOrder(r: Reader, r': Reader, input: Input, nsLabels: Labels, clock: Time)
    requires Reached(r, input, nsLabels) && MoreDenies(r, r') && MoreDenies(r', r)
    requires UniqueNames(r) && UniqueNames(r')
    ensures Decide(Some(r), input, clock) == Decide(Some(r'), input, clock)
  {
    hide Denies, Chosen, Override, FreezeCandidates, WindowCandidates, UniqueNames;
    var s, s' := DenyCandidates(r, input, nsLabels).value, DenyCandidates(r', input, nsLabels).value;
    forall c
      ensures c in s <==> c in s'
    {
      CandidatesAre(r, input, nsLabels, c);
      CandidatesAre(r', input, nsLabels, c);
      if Denies(r, input, nsLabels, c) {
        DeniesMonotone(r, r', input, nsLabels, c);
      }
      if Denies(r', input, nsLabels, c) {
        DeniesMonotone(r', r, input, nsLabels, c);
      }
    }
    CandidatesWellListed(r, input, nsLabels);
    CandidatesWellListed(r', input, nsLabels);
    ChoiceIgnoresOrder(s, s');
    SameOverride(r, r', input, nsLabels);
  }

  lemma SameOverride(r: Reader, r': Reader, input: Input, nsLabels: Labels)
    requires r.exceptions == r'.exceptions
    ensures Override(r, input, nsLabels) == Override(r', input, nsLabels)
  {}
}
