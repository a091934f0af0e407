/** First-writer ownership of one CronJob, and its closed form over any interleaving of policies. */
module CronJobOwnership {
  import opened GitOpsAnnotations
  import opened Policies
  import opened Wrappers

  const MANAGED_BY := "freeze-operator.io/managed-by"

  // spec.suspend may be unset; `rest` stands for everything the operator never touches.
  datatype Cron = Cron(labels: Labels, annotations: Annotations, suspend: Option<bool>, rest: string)

  // Owner and original as a first visit notes them.
  function Claimed(a: Annotations, suspend: Option<bool>, policy: string): Annotations {
    a[ORIGINAL_SUSPEND := FormatBool(suspend == Some(true))][MANAGED_BY := policy]
  }

  predicate HeldByOther(o: Cron, policy: string) {
    Get(o.annotations, MANAGED_BY) != "" && Get(o.annotations, MANAGED_BY) != policy
  }

  // A visit has something to store: the suspend field must change.
  predicate Due(o: Cron, policy: string, want: bool) {
    !HeldByOther(o, policy) && o.suspend != Some(want)
  }

  // The stored object after a visit whose update (if any) went through.
  function Visit(o: Cron, policy: string, want: bool): Cron {
    if !Due(o, policy, want) then o
    else if Get(o.annotations, MANAGED_BY) == "" then
      o.(annotations := Claimed(o.annotations, o.suspend, policy), suspend := Some(want))
    else o.(suspend := Some(want))
  }

  // A visit as it is stored: keys, values and fields.
  lemma VisitWrites(o: Cron, policy: string, want: bool)
    ensures var owner := Get(o.annotations, "freeze-operator.io/managed-by");
            Visit(o, policy, want) ==
              if (owner != "" && owner != policy) || o.suspend == Some(want) then o
              else if owner != "" then Cron(o.labels, o.annotations, Some(want), o.rest)
              else Cron(o.labels,
                        o.annotations["freeze-operator.io/original-suspend" := if o.suspend == Some(true) then "true" else "false"]
                                     ["freeze-operator.io/managed-by" := policy],
                        Some(want), o.rest)
  {}

  /* Runs */

  // One visit: whose, the suspend value it wants, and whether an update would go through.
  datatype CronStep = CronStep(policy: string, want: bool, updateOk: bool)

  function After(o: Cron, step: CronStep): Cron {
    if step.updateOk then Visit(o, step.policy, step.want) else o
  }

  function Run(o: Cron, steps: seq<CronStep>): Cron
    decreases |steps|
  {
    if |steps| == 0 then o else After(Run(o, steps[..|steps| - 1]), steps[|steps| - 1])
  }

  // The user's object as it was before any policy came by; policy names are never empty.
  ghost predicate Fresh(o: Cron, steps: seq<CronStep>) {
    Get(o.annotations, MANAGED_BY) == "" && forall i :: 0 <= i < |steps| ==> steps[i].policy != ""
  }

  // A successful step that wants something else than the user's value (or finds none).
  predicate Claims(o: Cron, step: CronStep) {
    step.updateOk && o.suspend != Some(step.want)
  }

  lemma ClaimedMeaning(a: Annotations, suspend: Option<bool>, policy: string)
    ensures Get(Claimed(a, suspend, policy), MANAGED_BY) == policy
    ensures Claimed(a, suspend, policy) - {MANAGED_BY, ORIGINAL_SUSPEND} == a - {MANAGED_BY, ORIGINAL_SUSPEND}
    ensures Get(Claimed(a, suspend, policy), ORIGINAL_SUSPEND) == FormatBool(suspend == Some(true))
  {
    assert |MANAGED_BY| == 29 && |ORIGINAL_SUSPEND| == 35;
  }

  // No claiming step, no change: agreeing with the user leaves no trace of ownership.
  lemma {:induction false} UnclaimedIsUntouched(o: Cron, steps: seq<CronStep>)
    requires Fresh(o, steps)
    requires forall i :: 0 <= i < |steps| ==> !Claims(o, steps[i])
    ensures Run(o, steps) == o
    decreases |steps|
  {
    hide Claimed;
    if |steps| > 0 {
      var n := |steps| - 1;
      assert forall i :: 0 <= i < n ==> steps[..n][i] == steps[i];
      UnclaimedIsUntouched(o, steps[..n]);
    }
  }

  // Step k is the first that claims the object.
  ghost predicate FirstClaim(o: Cron, steps: seq<CronStep>, k: nat) {
    && k < |steps| && Claims(o, steps[k])
    && forall i :: 0 <= i < k ==> !Claims(o, steps[i])
  }

  // Step j is the last successful one of the policy that made step k.
  ghost predicate LastOfOwner(steps: seq<CronStep>, k: nat, j: nat) {
    && k <= j < |steps| && steps[j].updateOk && steps[j].policy == steps[k].policy
    && forall i :: j < i < |steps| ==> !(steps[i].updateOk && steps[i].policy == steps[k].policy)
  }

  // The closed form: the first claiming step's policy owns the object for ever, the user's value is
  // noted, and suspend is what the owner's last successful step wanted.
  lemma {:induction false} OwnershipClosedForm(o: Cron, steps: seq<CronStep>, k: nat, j: nat)
    requires Fresh(o, steps) && FirstClaim(o, steps, k) && LastOfOwner(steps, k, j)
    ensures Run(o, steps) ==
              o.(annotations := Claimed(o.annotations, o.suspend, steps[k].policy), suspend := Some(steps[j].want))
    decreases |steps|
  {
    hide Claimed;
    var n := |steps| - 1;
    var front := steps[..n];
    assert forall i :: 0 <= i < n ==> front[i] == steps[i];
    ClaimedMeaning(o.annotations, o.suspend, steps[k].policy);
    assert steps[k].policy != "";
    if k == n {
      UnclaimedIsUntouched(o, front);
    } else {
      var j' := LastBefore(front, k);
      OwnershipClosedForm(o, front, k, j');
      if j != n {
        assert j == j';
      }
    }
  }

  lemma {:induction false} LastBefore(steps: seq<CronStep>, k: nat) returns (j: nat)
    requires k < |steps| && steps[k].updateOk
    ensures LastOfOwner(steps, k, j)
    decreases |steps|
  {
    var n := |steps| - 1;
    if steps[n].updateOk && steps[n].policy == steps[k].policy {
      j := n;
    } else {
      j := LastBefore(steps[..n], k);
      assert forall i :: 0 <= i < n ==> steps[..n][i] == steps[i];
    }
  }

  // There is always exactly one of the two cases, and in the second a last successful step.
  lemma {:induction false} ClaimedOrNot(o: Cron, steps: seq<CronStep>) returns (k: nat, j: nat)
    ensures (forall i :: 0 <= i < |steps| ==> !Claims(o, steps[i]))
            || (FirstClaim(o, steps, k) && LastOfOwner(steps, k, j))
    decreases |steps|
  {
    k, j := 0, 0;
    if |steps| > 0 {
      var n := |steps| - 1;
      assert forall i :: 0 <= i < n ==> steps[..n][i] == steps[i];
      k, j := ClaimedOrNot(o, steps[..n]);
      if forall i :: 0 <= i < n ==> !Claims(o, steps[i]) {
        k := n;
      }
      if Claims(o, steps[k]) {
        j := LastBefore(steps, k);
      }
    }
  }

  // The owner is never released: whatever comes later, the object keeps its owner and its note.
  lemma {:induction false} OwnershipIsForever(o: Cron, policy: string, steps: seq<CronStep>)
    requires Get(o.annotations, MANAGED_BY) == policy && policy != ""
    ensures Run(o, steps).annotations == o.annotations
    decreases |steps|
  {
    hide Claimed;
    if |steps| > 0 {
      OwnershipIsForever(o, policy, steps[..|steps| - 1]);
    }
  }

  // So nothing is given back: a CronJob the user had left running, claimed and suspended by `a`, is
  // never resumed by any other policy, although the user's value is noted on it.
  lemma OnlyTheOwnerResumes(o: Cron, a: string, steps: seq<CronStep>)
    requires Get(o.annotations, MANAGED_BY) == "" && o.suspend == Some(false) && a != ""
    requires forall i :: 0 <= i < |steps| ==> steps[i].policy != "" && steps[i].policy != a
    ensures var e := Run(o, [CronStep(a, true, true)] + steps);
            e.suspend == Some(true) && Get(e.annotations, ORIGINAL_SUSPEND) == "false"
  {
    hide Run, Get, Claimed;
    var all := [CronStep(a, true, true)] + steps;
    assert all[0] == CronStep(a, true, true) && forall i :: 1 <= i < |all| ==> all[i] == steps[i - 1];
    assert Fresh(o, all) && FirstClaim(o, all, 0) && LastOfOwner(all, 0, 0);
    ClaimedMeaning(o.annotations, o.suspend, a);
    OwnershipClosedForm(o, all, 0, 0);
  }

  // A sole policy dictates the field outright: also a CronJob that the user had suspended runs once the
  // policy's last successful step does not want it suspended.
  lemma {:induction false} SolePolicyDictates(o: Cron, policy: string, steps: seq<CronStep>)
    requires policy != "" && !HeldByOther(o, policy)
    requires forall i :: 0 <= i < |steps| ==> steps[i].policy == policy && steps[i].updateOk
    ensures !HeldByOther(Run(o, steps), policy)
    ensures Run(o, steps).suspend == if |steps| == 0 then o.suspend else Some(steps[|steps| - 1].want)
    decreases |steps|
  {
    hide Claimed;
    if |steps| > 0 {
      var e := Run(o, steps[..|steps| - 1]);
      SolePolicyDictates(o, policy, steps[..|steps| - 1]);
      ClaimedMeaning(e.annotations, e.suspend, policy);
    }
  }
}
