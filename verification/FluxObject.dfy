/** Pausing and resuming one Flux object (Kustomization or HelmRelease). */
module FluxObject {
  import opened GitOpsAnnotations
  import opened Policies
  import opened Wrappers

  // spec.suspend: absent, a boolean, or a value of another type.
  datatype SuspendField = Absent | Flag(value: bool) | NotBool

  // `rest` stands for everything the operator never touches.
  datatype Flux = Flux(labels: Labels, annotations: Annotations, suspend: SuspendField, rest: string)

  // NestedBool: anything but a boolean reads as false.
  function Suspended(o: Flux): bool {
    o.suspend.Flag? && o.suspend.value
  }

  function ParseBool(s: string): Option<bool> {
    if s in ["1", "t", "T", "TRUE", "true", "True"] then Some(true)
    else if s in ["0", "f", "F", "FALSE", "false", "False"] then Some(false)
    else None
  }

  lemma FormatParses(b: bool)
    ensures ParseBool(FormatBool(b)) == Some(b)
  {
    assert "false"[0] == 'f';
    assert "true" in ["1", "t", "T", "TRUE", "true", "True"];
    assert "false" in ["0", "f", "F", "FALSE", "false", "False"];
  }

  function Pause(o: Flux, policy: string): Flux {
    o.(annotations := Mark(o.annotations, ORIGINAL_SUSPEND, FormatBool(Suspended(o)), policy),
       suspend := Flag(true))
  }

  function Restore(o: Flux): Flux {
    var original := ParseBool(Get(o.annotations, ORIGINAL_SUSPEND));
    o.(annotations := Unmark(o.annotations, ORIGINAL_SUSPEND),
       suspend := Flag(original.Some? && original.value))
  }

  // The object after one successful visit of a policy.
  function Visit(o: Flux, policy: string, active: bool): Flux {
    if active && !ManagedBy(o.annotations, policy) then Pause(o, policy)
    else if !active && ManagedBy(o.annotations, policy) then Restore(o)
    else o
  }

  // The four cases as they are stored: keys, values and fields.
  lemma VisitWrites(o: Flux, policy: string, active: bool)
    ensures var held := Get(o.annotations, "freeze-operator.io/managed") == "true"
                        && Get(o.annotations, "freeze-operator.io/managed-by-policy") == policy;
            && (active == held ==> Visit(o, policy, active) == o)
            && (active && !held ==>
                  Visit(o, policy, active) == Flux.Flux(
                    o.labels,
                    o.annotations["freeze-operator.io/original-suspend" := if o.suspend == Flag(true) then "true" else "false"]
                                 ["freeze-operator.io/managed" := "true"]
                                 ["freeze-operator.io/managed-by-policy" := policy],
                    Flag(true), o.rest))
            && (!active && held ==>
                  Visit(o, policy, active) == Flux.Flux(
                    o.labels,
                    o.annotations - {"freeze-operator.io/managed", "freeze-operator.io/managed-by-policy",
                                     "freeze-operator.io/original-suspend"},
                    Flag(Get(o.annotations, "freeze-operator.io/original-suspend") in {"1", "t", "T", "TRUE", "true", "True"}),
                    o.rest))
  {}

  /* Runs of any number of policies over one object */

  function After(o: Flux, step: Step): Flux {
    if step.updateOk then Visit(o, step.policy, step.active) else o
  }

  function Run(o: Flux, steps: seq<Step>): Flux
    decreases |steps|
  {
    if |steps| == 0 then o else After(Run(o, steps[..|steps| - 1]), steps[|steps| - 1])
  }

  // A policy that becomes active over an object another policy holds.
  predicate Takeover(o: Flux, step: Step) {
    step.updateOk && step.active && Managed(o.annotations) && !ManagedBy(o.annotations, step.policy)
  }

  predicate TookOver(o: Flux, steps: seq<Step>)
    decreases |steps|
  {
    |steps| > 0 &&
    (TookOver(o, steps[..|steps| - 1]) || Takeover(Run(o, steps[..|steps| - 1]), steps[|steps| - 1]))
  }

  // What the object owes the user: held, it is suspended and has saved `owed`; free, it shows it.
  ghost predicate Owes(o: Flux, owed: bool) {
    if Managed(o.annotations) then
      o.suspend == Flag(true) && Get(o.annotations, ORIGINAL_SUSPEND) == FormatBool(owed)
    else Suspended(o) == owed
  }

  lemma StepOwes(o: Flux, step: Step, owed: bool)
    requires Owes(o, owed)
    ensures Owes(After(o, step), owed || Takeover(o, step))
    ensures var e := After(o, step);
            e.labels == o.labels && e.rest == o.rest && Unmark(e.annotations, ORIGINAL_SUSPEND) == Unmark(o.annotations, ORIGINAL_SUSPEND)
  {
    hide Mark, Unmark, ParseBool, FormatBool;
    var key := ORIGINAL_SUSPEND;
    MarkMeaning(o.annotations, key, FormatBool(Suspended(o)), step.policy);
    FormatParses(owed);
  }

  // Over every interleaving of policies and failed updates: a held object is suspended and has saved,
  // and a free one shows, "the user's value, or a takeover has happened"; nothing else ever changes.
  lemma {:induction false} RunOutcome(o: Flux, steps: seq<Step>)
    requires !Managed(o.annotations)
    ensures Owes(Run(o, steps), Suspended(o) || TookOver(o, steps))
    ensures var e := Run(o, steps);
            e.labels == o.labels && e.rest == o.rest && Unmark(e.annotations, ORIGINAL_SUSPEND) == Unmark(o.annotations, ORIGINAL_SUSPEND)
    decreases |steps|
  {
    hide Owes, After, Takeover, Unmark;
    if |steps| == 0 {
      StartsOwing(o);
    } else {
      var n := |steps| - 1;
      RunOutcome(o, steps[..n]);
      StepOwes(Run(o, steps[..n]), steps[n], Suspended(o) || TookOver(o, steps[..n]));
    }
  }

  lemma StartsOwing(o: Flux)
    requires !Managed(o.annotations)
    ensures Owes(o, Suspended(o))
  {}

  // The round trip: released without any takeover, the object has the user's value back;
  // released after one, it stays suspended whatever the user had.
  lemma ReleasedValue(o: Flux, steps: seq<Step>)
    requires !Managed(o.annotations) && !Managed(Run(o, steps).annotations)
    ensures Run(o, steps).suspend == Flag(true) <==> o.suspend == Flag(true) || TookOver(o, steps)
  {
    hide Run, TookOver, Managed;
    RunOutcome(o, steps);
  }

  // An object that carried no mark of the operator carries none once it is released.
  lemma {:induction false} ReleaseLeavesNoTrace(o: Flux, steps: seq<Step>)
    requires Unmark(o.annotations, ORIGINAL_SUSPEND) == o.annotations
    ensures var e := Run(o, steps);
            Managed(e.annotations) || e.annotations == o.annotations
    decreases |steps|
  {
    hide FormatBool, ParseBool;
    if |steps| > 0 {
      var n := |steps| - 1;
      var e := Run(o, steps[..n]);
      ReleaseLeavesNoTrace(o, steps[..n]);
      assert !Managed(o.annotations) by {
        assert MANAGED !in Unmark(o.annotations, ORIGINAL_SUSPEND);
      }
      RunOutcome(o, steps[..n]);
      MarkMeaning(e.annotations, ORIGINAL_SUSPEND, FormatBool(Suspended(e)), steps[n].policy);
    }
  }

  // Managed implies paused, with an owner and a saved original.
  lemma ManagedIsPaused(o: Flux, steps: seq<Step>)
    requires !Managed(o.annotations) && Managed(Run(o, steps).annotations)
    ensures var e := Run(o, steps);
            && e.suspend == Flag(true)
            && ORIGINAL_SUSPEND in e.annotations
            && ParseBool(e.annotations[ORIGINAL_SUSPEND]).Some?
    ensures MANAGED_BY_POLICY in Run(o, steps).annotations
    ensures exists i :: 0 <= i < |steps| && ManagedBy(Run(o, steps).annotations, steps[i].policy)
  {
    hide Run, TookOver, Managed;
    RunOutcome(o, steps);
    FormatParses(Suspended(o) || TookOver(o, steps));
    assert |FormatBool(true)| == 4 && |FormatBool(false)| == 5;
    OwnerComesFromRun(o, steps);
  }

  lemma {:induction false} OwnerComesFromRun(o: Flux, steps: seq<Step>)
    requires !Managed(o.annotations)
    ensures Managed(Run(o, steps).annotations) ==>
              MANAGED_BY_POLICY in Run(o, steps).annotations &&
              exists i :: 0 <= i < |steps| && ManagedBy(Run(o, steps).annotations, steps[i].policy)
    decreases |steps|
  {
    hide Mark, Unmark;
    if |steps| > 0 {
      var n := |steps| - 1;
      OwnerComesFromRun(o, steps[..n]);
      assert forall i :: 0 <= i < n ==> steps[..n][i] == steps[i];
      var e := Run(o, steps[..n]);
      MarkMeaning(e.annotations, ORIGINAL_SUSPEND, FormatBool(Suspended(e)), steps[n].policy);
    }
  }

  // The smallest run that loses the user's value: a pauses, b takes over, b releases.
  lemma TakeoverLosesOriginal(o: Flux, a: string, b: string)
    requires !Managed(o.annotations) && !Suspended(o) && a != b
    ensures var e := Run(o, [Step(a, true, true), Step(b, true, true), Step(b, false, true)]);
            !Managed(e.annotations) && Suspended(e)
    ensures var e := Run(o, [Step(a, true, true), Step(b, true, true), Step(b, false, true)]);
            Visit(e, a, false) == e
  {
    hide Mark, Unmark, FormatBool, ParseBool;
    var s1, s2, s3 := Step(a, true, true), Step(b, true, true), Step(b, false, true);
    assert [s1, s2, s3][..2] == [s1, s2] && [s1, s2][..1] == [s1] && [s1][..0] == [];
    var o1, o2 := Visit(o, a, true), Visit(Visit(o, a, true), b, true);
    MarkMeaning(o.annotations, ORIGINAL_SUSPEND, FormatBool(Suspended(o)), a);
    MarkMeaning(o1.annotations, ORIGINAL_SUSPEND, FormatBool(true), b);
    MarkMeaning(o2.annotations, ORIGINAL_SUSPEND, FormatBool(true), b);
    FormatParses(true);
    assert Run(o, []) == o;
    assert Run(o, [s1]) == o1;
    assert Run(o, [s1, s2]) == o2;
    assert Run(o, [s1, s2, s3]) == Visit(o2, b, false);
  }

  /* Several policies: whose freeze keeps the object paused */

  // The holder's last successful visit froze, and whoever's last one did is the holder unless a
  // takeover has happened.
  ghost predicate HolderFroze(o: Flux, steps: seq<Step>) {
    var a := Run(o, steps).annotations;
    && (Managed(a) ==> LastFroze(steps, Get(a, MANAGED_BY_POLICY)))
    && (forall p :: LastFroze(steps, p) ==> ManagedBy(a, p) || TookOver(o, steps))
  }

  lemma OneMoreStep(o: Flux, steps: seq<Step>)
    requires |steps| > 0 && HolderFroze(o, steps[..|steps| - 1])
    ensures HolderFroze(o, steps)
  {
    hide Mark, Unmark, FormatBool, ParseBool;
    var n := |steps| - 1;
    var e := Run(o, steps[..n]);
    MarkMeaning(e.annotations, ORIGINAL_SUSPEND, FormatBool(Suspended(e)), steps[n].policy);
    forall p | LastFroze(steps, p)
      ensures ManagedBy(Run(o, steps).annotations, p) || TookOver(o, steps)
    {
      if !(steps[n].updateOk && steps[n].policy == p) {
        assert LastFroze(steps[..n], p);
      }
    }
  }

  lemma {:induction false} HolderIsLastToFreeze(o: Flux, steps: seq<Step>)
    requires !Managed(o.annotations)
    ensures HolderFroze(o, steps)
    decreases |steps|
  {
    hide HolderFroze;
    if |steps| == 0 {
      NobodyFroze(o);
    } else {
      HolderIsLastToFreeze(o, steps[..|steps| - 1]);
      OneMoreStep(o, steps);
    }
  }

  lemma NobodyFroze(o: Flux)
    requires !Managed(o.annotations)
    ensures HolderFroze(o, [])
  {}

  // A takeover is nothing but two freezes that met.
  lemma {:induction false} TookOverIff(o: Flux, steps: seq<Step>)
    requires !Managed(o.annotations)
    ensures TookOver(o, steps) <==> Collided(steps)
    decreases |steps|
  {
    hide LastFroze, Run;
    if |steps| > 0 {
      var n := |steps| - 1;
      TookOverIff(o, steps[..n]);
      HolderIsLastToFreeze(o, steps[..n]);
      var a := Run(o, steps[..n]).annotations;
      if Takeover(Run(o, steps[..n]), steps[n]) {
        assert LastFroze(steps[..n], Get(a, MANAGED_BY_POLICY));
      }
    }
  }

  // The exact value over every interleaving of any number of policies and failed updates: suspended if
  // and only if the user wants it so, two freezes have met, or some policy's last successful visit found
  // its freeze on. So while freezes do not meet every pause lasts exactly as long as its own policy wants.
  lemma SuspendedIff(o: Flux, steps: seq<Step>)
    requires !Managed(o.annotations)
    ensures Run(o, steps).suspend == Flag(true) <==> o.suspend == Flag(true) || Collided(steps) || SomeoneFroze(steps)
  {
    hide Run, TookOver, Managed, LastFroze, Collided;
    RunOutcome(o, steps);
    HolderIsLastToFreeze(o, steps);
    TookOverIff(o, steps);
    var a := Run(o, steps).annotations;
    if Managed(a) {
      assert SomeoneFroze(steps);
    } else if SomeoneFroze(steps) {
      var p :| LastFroze(steps, p);
      assert !ManagedBy(a, p) && TookOver(o, steps);
    }
  }
}
