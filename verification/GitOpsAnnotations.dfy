/** The annotations the operator writes on the GitOps objects it pauses. */
module GitOpsAnnotations {

  type Annotations = map<string, string>

  const MANAGED := "freeze-operator.io/managed"
  const MANAGED_BY_POLICY := "freeze-operator.io/managed-by-policy"
  const ORIGINAL_AUTOSYNC := "freeze-operator.io/original-autosync"
  const ORIGINAL_SUSPEND := "freeze-operator.io/original-suspend"
  const MANAGED_VALUE := "true"

  // Reading a missing key yields the empty string.
  function Get(a: Annotations, key: string): string {
    if key in a then a[key] else ""
  }

  predicate Managed(a: Annotations) {
    Get(a, MANAGED) == MANAGED_VALUE
  }

  predicate ManagedBy(a: Annotations, policy: string) {
    Managed(a) && Get(a, MANAGED_BY_POLICY) == policy
  }

  // The marks of a pause by `policy`, with the original saved under `key`.
  function Mark(a: Annotations, key: string, original: string, policy: string): Annotations {
    a[key := original][MANAGED := MANAGED_VALUE][MANAGED_BY_POLICY := policy]
  }

  // Every annotation that is not the operator's: what a restore leaves.
  function Unmark(a: Annotations, key: string): Annotations {
    a - {MANAGED, MANAGED_BY_POLICY, key}
  }

  // How a saved suspend flag is written.
  function FormatBool(b: bool): string {
    if b then "true" else "false"
  }

  // One visit of a policy to an object: whose, whether its freeze was on, and whether the
  // update (if any) went through.
  datatype Step = Step(policy: string, active: bool, updateOk: bool)

  // The last successful visit of this policy found its freeze on.
  predicate LastFroze(steps: seq<Step>, policy: string)
    decreases |steps|
  {
    |steps| > 0 &&
    var n := |steps| - 1;
    if steps[n].updateOk && steps[n].policy == policy then steps[n].active else LastFroze(steps[..n], policy)
  }

  ghost predicate SomeoneFroze(steps: seq<Step>) {
    exists p :: LastFroze(steps, p)
  }

  ghost predicate AnotherFroze(steps: seq<Step>, policy: string) {
    exists p :: p != policy && LastFroze(steps, p)
  }

  // Two freezes met: some successful visit found its freeze on while the last one of another policy had.
  ghost predicate Collided(steps: seq<Step>)
    decreases |steps|
  {
    |steps| > 0 &&
    var n := |steps| - 1;
    Collided(steps[..n]) || (steps[n].updateOk && steps[n].active && AnotherFroze(steps[..n], steps[n].policy))
  }

  lemma KeysDiffer()
    ensures MANAGED != MANAGED_BY_POLICY
    ensures MANAGED != ORIGINAL_AUTOSYNC && MANAGED_BY_POLICY != ORIGINAL_AUTOSYNC
    ensures MANAGED != ORIGINAL_SUSPEND && MANAGED_BY_POLICY != ORIGINAL_SUSPEND
  {
    assert |MANAGED| == 26 && |MANAGED_BY_POLICY| == 36;
    assert |ORIGINAL_AUTOSYNC| == 36 && MANAGED_BY_POLICY[19] != ORIGINAL_AUTOSYNC[19];
    assert |ORIGINAL_SUSPEND| == 35;
  }

  // Marking records owner and original; unmarking leaves no trace of a pause.
  lemma MarkMeaning(a: Annotations, key: string, original: string, policy: string)
    requires key == ORIGINAL_AUTOSYNC || key == ORIGINAL_SUSPEND
    ensures ManagedBy(Mark(a, key, original, policy), policy)
    ensures Get(Mark(a, key, original, policy), key) == original
    ensures MANAGED_BY_POLICY in Mark(a, key, original, policy)
    ensures Get(Mark(a, key, original, policy), MANAGED_BY_POLICY) == policy
    ensures !Managed(Unmark(a, key))
    ensures Unmark(Mark(a, key, original, policy), key) == Unmark(a, key) == Unmark(Unmark(a, key), key)
  {
    KeysDiffer();
  }
}
