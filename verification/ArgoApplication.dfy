/** Pausing and resuming one Argo CD Application. */
module ArgoApplication {
  import opened GitOpsAnnotations
  import opened Policies
  import opened Wrappers

  // An autosync map, identified with the members of its JSON text: the object {body}.
  datatype Settings = Settings(body: string)

  // spec.syncPolicy.automated: absent, a map, or a value of another type.
  datatype AutomatedField = Absent | Automated(settings: Settings) | NotMap

  datatype Application = Application(labels: Labels, annotations: Annotations, automated: AutomatedField, rest: string)

  // NestedMap: only a map is found.
  function AutoSync(o: Application): Option<Settings> {
    if o.automated.Automated? then Some(o.automated.settings) else None
  }

  function EncodeSettings(s: Settings): string {
    "{" + s.body + "}"
  }

  function DecodeSettings(text: string): Option<Settings> {
    if |text| >= 2 && text[0] == '{' && text[|text| - 1] == '}'
    then Some(Settings(text[1..|text| - 1]))
    else None
  }

  function Encode(s: Option<Settings>): string {
    if s.Some? then EncodeSettings(s.value) else "null"
  }

  // What a restore reads back from the saved text.
  function Decode(text: string): Option<Settings> {
    if text != "" && text != "null" then DecodeSettings(text) else None
  }

  // The sentinels are never confused with a saved map, and nothing is lost in the text.
  lemma SavedTextRoundTrips(s: Option<Settings>)
    ensures Decode(Encode(s)) == s
    ensures s.Some? ==> Encode(s) != "" && Encode(s) != "null"
  {
    assert "null"[0] == 'n';
    if s.Some? {
      var text := EncodeSettings(s.value);
      assert text[0] == '{' && text[|text| - 1] == '}' && text[1..|text| - 1] == s.value.body;
    }
  }

  function Pause(o: Application, policy: string): Application {
    o.(annotations := Mark(o.annotations, ORIGINAL_AUTOSYNC, Encode(AutoSync(o)), policy),
       automated := Absent)
  }

  function Restore(o: Application): Application {
    var original := Decode(Get(o.annotations, ORIGINAL_AUTOSYNC));
    o.(annotations := Unmark(o.annotations, ORIGINAL_AUTOSYNC),
       automated := if original.Some? then Automated(original.value) else o.automated)
  }

  // The object after one successful visit of a policy.
  function Visit(o: Application, policy: string, active: bool): Application {
    if active && !ManagedBy(o.annotations, policy) then Pause(o, policy)
    else if !active && ManagedBy(o.annotations, policy) then Restore(o)
    else o
  }

  // What a restore makes of the saved text: the sentinels leave autosync as it is, and the text of a
  // map brings the map back.
  lemma DecodeIs(text: string, body: string)
    ensures Decode("") == None == Decode("null")
    ensures text == "{" + body + "}" ==> Decode(text) == Some(Settings(body))
  {
    if text == "{" + body + "}" {
      assert text[0] == '{' && "null"[0] == 'n';
      assert text[|text| - 1] == '}' && text[1..|text| - 1] == body;
    }
  }

  // The four cases as they are stored: keys, values and fields.
  lemma VisitWrites(o: Application, policy: string, active: bool)
    ensures var held := Get(o.annotations, "freeze-operator.io/managed") == "true"
                        && Get(o.annotations, "freeze-operator.io/managed-by-policy") == policy;
            && (active == held ==> Visit(o, policy, active) == o)
            && (active && !held ==>
                  Visit(o, policy, active) == Application(
                    o.labels,
                    o.annotations["freeze-operator.io/original-autosync" :=
                                    if o.automated.Automated? then "{" + o.automated.settings.body + "}" else "null"]
                                 ["freeze-operator.io/managed" := "true"]
                                 ["freeze-operator.io/managed-by-policy" := policy],
                    Absent, o.rest))
            && (!active && held ==>
                  var saved := Decode(Get(o.annotations, "freeze-operator.io/original-autosync"));
                  Visit(o, policy, active) == Application(
                    o.labels,
                    o.annotations - {"freeze-operator.io/managed", "freeze-operator.io/managed-by-policy",
                                     "freeze-operator.io/original-autosync"},
                    if saved.Some? then Automated(saved.value) else o.automated, o.rest))
  {
    hide Decode;
  }

  /* Runs of any number of policies over one Application */

  function After(o: Application, step: Step): Application {
    if step.updateOk then Visit(o, step.policy, step.active) else o
  }

  function Run(o: Application, steps: seq<Step>): Application
    decreases |steps|
  {
    if |steps| == 0 then o else After(Run(o, steps[..|steps| - 1]), steps[|steps| - 1])
  }

  predicate Takeover(o: Application, step: Step) {
    step.updateOk && step.active && Managed(o.annotations) && !ManagedBy(o.annotations, step.policy)
  }

  predicate TookOver(o: Application, steps: seq<Step>)
    decreases |steps|
  {
    |steps| > 0 &&
    (TookOver(o, steps[..|steps| - 1]) || Takeover(Run(o, steps[..|steps| - 1]), steps[|steps| - 1]))
  }

  // What the Application owes the user: held, autosync is off and `owed` is saved; free, it shows it.
  ghost predicate Owes(o: Application, owed: Option<Settings>) {
    if Managed(o.annotations) then
      o.automated == Absent && Get(o.annotations, ORIGINAL_AUTOSYNC) == Encode(owed)
    else AutoSync(o) == owed
  }

  lemma StepOwes(o: Application, step: Step, owed: Option<Settings>)
    requires Owes(o, owed)
    ensures Owes(After(o, step), if Takeover(o, step) then None else owed)
    ensures var e := After(o, step);
            e.labels == o.labels && e.rest == o.rest && Unmark(e.annotations, ORIGINAL_AUTOSYNC) == Unmark(o.annotations, ORIGINAL_AUTOSYNC)
  {
    hide Mark, Unmark, Encode, Decode;
    MarkMeaning(o.annotations, ORIGINAL_AUTOSYNC, Encode(AutoSync(o)), step.policy);
    SavedTextRoundTrips(owed);
  }

  // Over every interleaving of policies and failed updates: what a held Application has saved, and a
  // free one shows, is the user's autosync, or nothing once a takeover has happened.
  lemma {:induction false} RunOutcome(o: Application, steps: seq<Step>)
    requires !Managed(o.annotations)
    ensures Owes(Run(o, steps), if TookOver(o, steps) then None else AutoSync(o))
    ensures var e := Run(o, steps);
            e.labels == o.labels && e.rest == o.rest && Unmark(e.annotations, ORIGINAL_AUTOSYNC) == Unmark(o.annotations, ORIGINAL_AUTOSYNC)
    decreases |steps|
  {
    hide Owes, After, Takeover, Unmark;
    if |steps| == 0 {
      StartsOwing(o);
    } else {
      var n := |steps| - 1;
      RunOutcome(o, steps[..n]);
      StepOwes(Run(o, steps[..n]), steps[n], if TookOver(o, steps[..n]) then None else AutoSync(o));
    }
  }

  lemma StartsOwing(o: Application)
    requires !Managed(o.annotations)
    ensures Owes(o, AutoSync(o))
  {}

  lemma ReleasedValue(o: Application, steps: seq<Step>)
    requires !Managed(o.annotations) && !Managed(Run(o, steps).annotations)
    ensures AutoSync(Run(o, steps)) == if TookOver(o, steps) then None else AutoSync(o)
  {
    hide Run, TookOver, Managed;
    RunOutcome(o, steps);
  }

  // An object that carried no mark of the operator carries none once it is released.
  lemma {:induction false} ReleaseLeavesNoTrace(o: Application, steps: seq<Step>)
    requires Unmark(o.annotations, ORIGINAL_AUTOSYNC) == o.annotations
    ensures var e := Run(o, steps);
            Managed(e.annotations) || e.annotations == o.annotations
    decreases |steps|
  {
    hide Encode, Decode;
    if |steps| > 0 {
      var n := |steps| - 1;
      var e := Run(o, steps[..n]);
      ReleaseLeavesNoTrace(o, steps[..n]);
      assert !Managed(o.annotations) by {
        assert MANAGED !in Unmark(o.annotations, ORIGINAL_AUTOSYNC);
      }
      RunOutcome(o, steps[..n]);
      MarkMeaning(e.annotations, ORIGINAL_AUTOSYNC, Encode(AutoSync(e)), steps[n].policy);
    }
  }

  // Managed implies paused, with a saved original that reads back.
  lemma ManagedIsPaused(o: Application, steps: seq<Step>)
    requires !Managed(o.annotations) && Managed(Run(o, steps).annotations)
    ensures var e := Run(o, steps);
            && e.automated == Absent
            && ORIGINAL_AUTOSYNC in e.annotations
            && Decode(e.annotations[ORIGINAL_AUTOSYNC]) == if TookOver(o, steps) then None else AutoSync(o)
    ensures MANAGED_BY_POLICY in Run(o, steps).annotations
    ensures exists i :: 0 <= i < |steps| && ManagedBy(Run(o, steps).annotations, steps[i].policy)
  {
    hide Run, TookOver, Managed, Decode;
    RunOutcome(o, steps);
    SavedTextRoundTrips(if TookOver(o, steps) then None else AutoSync(o));
    assert |Encode(None)| == 4;
    OwnerComesFromRun(o, steps);
  }

  lemma {:induction false} OwnerComesFromRun(o: Application, steps: seq<Step>)
    requires !Managed(o.annotations)
    ensures Managed(Run(o, steps).annotations) ==>
              MANAGED_BY_POLICY in Run(o, steps).annotations &&
              exists i :: 0 <= i < |steps| && ManagedBy(Run(o, steps).annotations, steps[i].policy)
    decreases |steps|
  {
    hide Mark, Unmark, Encode, Decode;
    if |steps| > 0 {
      var n := |steps| - 1;
      OwnerComesFromRun(o, steps[..n]);
      assert forall i :: 0 <= i < n ==> steps[..n][i] == steps[i];
      var e := Run(o, steps[..n]);
      MarkMeaning(e.annotations, ORIGINAL_AUTOSYNC, Encode(AutoSync(e)), steps[n].policy);
    }
  }

  /* Several policies: whose freeze keeps the object paused */

  // The holder's last successful visit froze, and whoever's last one did is the holder unless a
  // takeover has happened.
  ghost predicate HolderFroze(o: Application, steps: seq<Step>) {
    var a := Run(o, steps).annotations;
    && (Managed(a) ==> LastFroze(steps, Get(a, MANAGED_BY_POLICY)))
    && (forall p :: LastFroze(steps, p) ==> ManagedBy(a, p) || TookOver(o, steps))
  }

  lemma OneMoreStep(o: Application, steps: seq<Step>)
    requires |steps| > 0 && HolderFroze(o, steps[..|steps| - 1])
    ensures HolderFroze(o, steps)
  {
    hide Mark, Unmark, Encode, Decode;
    var n := |steps| - 1;
    var e := Run(o, steps[..n]);
    MarkMeaning(e.annotations, ORIGINAL_AUTOSYNC, Encode(AutoSync(e)), steps[n].policy);
    forall p | LastFroze(steps, p)
      ensures ManagedBy(Run(o, steps).annotations, p) || TookOver(o, steps)
    {
      if !(steps[n].updateOk && steps[n].policy == p) {
        assert LastFroze(steps[..n], p);
      }
    }
  }

  lemma {:induction false} HolderIsLastToFreeze(o: Application, steps: seq<Step>)
    requires !Managed(o.annotations)
    ensures HolderFroze(o, steps)
    decreases |steps|
  {
    hide HolderFroze;
    if |steps| == 0 {
      NobodyFroze(o);
    } else {
      HolderIsLastToFreeze(o, steps[..|steps| - 1]);
      OneMoreStep(o, steps);
    }
  }

  lemma NobodyFroze(o: Application)
    requires !Managed(o.annotations)
    ensures HolderFroze(o, [])
  {}

  // A takeover is nothing but two freezes that met.
  lemma {:induction false} TookOverIff(o: Application, steps: seq<Step>)
    requires !Managed(o.annotations)
    ensures TookOver(o, steps) <==> Collided(steps)
    decreases |steps|
  {
    hide LastFroze, Run;
    if |steps| > 0 {
      var n := |steps| - 1;
      TookOverIff(o, steps[..n]);
      HolderIsLastToFreeze(o, steps[..n]);
      var a := Run(o, steps[..n]).annotations;
      if Takeover(Run(o, steps[..n]), steps[n]) {
        assert LastFroze(steps[..n], Get(a, MANAGED_BY_POLICY));
      }
    }
  }

  // The exact value over every interleaving of any number of policies and failed updates: none once two
  // freezes have met or while some policy's last successful visit found its freeze on, and the user's
  // autosync otherwise.
  lemma AutoSyncExactly(o: Application, steps: seq<Step>)
    requires !Managed(o.annotations)
    ensures AutoSync(Run(o, steps)) == if Collided(steps) || SomeoneFroze(steps) then None else AutoSync(o)
  {
    hide Run, TookOver, Managed, LastFroze, Collided;
    RunOutcome(o, steps);
    HolderIsLastToFreeze(o, steps);
    TookOverIff(o, steps);
    var a := Run(o, steps).annotations;
    if Managed(a) {
      assert SomeoneFroze(steps);
    } else if SomeoneFroze(steps) {
      var p :| LastFroze(steps, p);
      assert !ManagedBy(a, p) && TookOver(o, steps);
    }
  }
}
