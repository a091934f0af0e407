/** The two reconcile functions: status, side effects with their opposite polarities, requeue. */
module Controllers {
  import opened Clock
  import opened Policies
  import opened Wrappers
  import CronJobPass
  import FreezeSchedule
  import GitOpsPass
  import GitOpsProviders
  import GitOpsReconciler
  import WindowFold

  // What a reconcile returns: a delay, or an error that leaves retrying to the work queue.
  datatype Outcome = Requeue(after: Duration) | EvaluationFailed(error: WindowFold.FoldError) | StatusPatchFailed

  // The GitOps store after a policy's pass; a policy without GitOps leaves it alone.
  ghost function GitOpsAfter(server: GitOpsPass.Server, store: GitOpsPass.Store, behavior: Behavior, policy: string, freeze: bool): GitOpsPass.Store {
    GitOpsPass.After(store, GitOpsProviders.PassKeys(server, store, behavior.gitops), server.failing, policy, freeze)
  }

  // The CronJobs after a policy's pass; a policy that does not suspend CronJobs leaves them alone.
  ghost function CronJobsAfter(server: CronJobPass.CronServer, store: CronJobPass.CronStore, behavior: Behavior,
                               target: TargetSpec, policy: string, freeze: bool): CronJobPass.CronStore
    requires CronJobPass.OrderInStore(server, store)
  {
    if behavior.suspendCronJobs then
      CronJobPass.VisitAll(store,
        CronJobPass.Visited(server, store, CronJobPass.Targeted(server, target), target.objectSelector, policy, freeze),
        policy, freeze)
    else store
  }

  // The paused count a status shows after such a pass; when every list call succeeds it is the number of
  // objects that the policy names and holds.
  ghost predicate CountIsExact(server: GitOpsPass.Server, before: GitOpsPass.Store, after: GitOpsPass.Store,
                               behavior: Behavior, policy: string, freeze: bool, count: nat) {
    behavior.gitops.Some? && behavior.gitops.value.enabled ==>
      && count == (if freeze then GitOpsProviders.PassCount(server, before, after, behavior.gitops, policy) else 0)
      && (GitOpsProviders.EverythingListed(server, behavior.gitops) ==>
            count == if freeze then |GitOpsPass.MarkedBy(after, GitOpsProviders.PassKeys(server, before, behavior.gitops), policy)| else 0)
  }

  // The part both controllers share, once they know whether the policy freezes now.
  method ApplySideEffects(client: GitOpsReconciler.Client, crons: CronJobPass.CronClient,
                          behavior: Behavior, target: TargetSpec, policy: string, freeze: bool)
    returns (paused: Option<nat>)
    requires GitOpsPass.WellFormed(client.server, client.store)
    requires CronJobPass.OrderInStore(crons.server, crons.store)
    modifies client, crons
    ensures client.store == GitOpsAfter(client.server, old(client.store), behavior, policy, freeze)
    ensures crons.store == CronJobsAfter(crons.server, old(crons.store), behavior, target, policy, freeze)
    ensures paused.Some? <==> behavior.gitops.Some? && behavior.gitops.value.enabled
    ensures paused.Some? ==>
              CountIsExact(client.server, old(client.store), client.store, behavior, policy, freeze, paused.value)
  {
    hide GitOpsPass.WellFormed, CronJobPass.OrderInStore, CronJobPass.VisitAll, CronJobPass.Visited,
      GitOpsPass.After, GitOpsPass.MarkedBy;
    if behavior.suspendCronJobs {
      var _ := CronJobPass.UpdateCronJobsForPolicy(crons, target, policy, freeze);
    }
    paused := None;
    if behavior.gitops.Some? && behavior.gitops.value.enabled {
      var r := GitOpsProviders.Reconcile(client, behavior.gitops, policy, freeze);
      paused := Some(r.pausedCount);
    } else {
      GitOpsReconciler.NothingVisited(client.store, client.server.failing, policy, freeze);
      assert GitOpsProviders.PassKeys(client.server, client.store, behavior.gitops) == {};
    }
  }

  // The stored MaintenanceWindow: its spec and its status.
  class MaintenanceWindowResource {
    const spec: MaintenanceWindow
    var active: bool
    var activeWindow: Option<WindowFold.WindowStatus>
    var nextWindow: Option<WindowFold.WindowStatus>
    var gitopsPausedCount: nat

    constructor (spec: MaintenanceWindow)
      ensures this.spec == spec && !active && activeWindow.None? && nextWindow.None? && gitopsPausedCount == 0
    {
      this.spec := spec;
      active, activeWindow, nextWindow, gitopsPausedCount := false, None, None, 0;
    }

    // Inside a window the policy does not freeze: side effects get the negated flag.
    method Reconcile(now: Time, client: GitOpsReconciler.Client, crons: CronJobPass.CronClient, patchOk: bool)
      returns (outcome: Outcome)
      requires GitOpsPass.WellFormed(client.server, client.store)
      requires CronJobPass.OrderInStore(crons.server, crons.store)
      modifies this, client, crons
      ensures match WindowFold.Evaluate(now, spec)
              case Err(e) =>
                && outcome == EvaluationFailed(e)
                && active == old(active) && activeWindow == old(activeWindow) && nextWindow == old(nextWindow)
                && gitopsPausedCount == old(gitopsPausedCount)
                && client.store == old(client.store) && crons.store == old(crons.store)
              case Ok(r) =>
                && outcome == (if patchOk then Requeue(r.requeueAfter) else StatusPatchFailed)
                && active == (if patchOk then r.active else old(active))
                && activeWindow == (if patchOk then r.activeWindow else old(activeWindow))
                && nextWindow == (if patchOk then r.nextWindow else old(nextWindow))
                && client.store == GitOpsAfter(client.server, old(client.store), spec.behavior, spec.name, !r.active)
                && crons.store == CronJobsAfter(crons.server, old(crons.store), spec.behavior, spec.target, spec.name, !r.active)
                && (if patchOk then
                      CountIsExact(client.server, old(client.store), client.store, spec.behavior, spec.name, !r.active, gitopsPausedCount)
                    else gitopsPausedCount == old(gitopsPausedCount))
      ensures spec.behavior.gitops.None? || !spec.behavior.gitops.value.enabled ==> gitopsPausedCount == old(gitopsPausedCount)
    {
      hide WindowFold.Evaluate, GitOpsAfter, CronJobsAfter, GitOpsPass.WellFormed, CronJobPass.OrderInStore;
      var evaluated := WindowFold.EvaluateWindows(now, spec);
      if evaluated.Err? {
        return EvaluationFailed(evaluated.error);
      }
      var result := evaluated.value;
      var paused := ApplySideEffects(client, crons, spec.behavior, spec.target, spec.name, !result.active);
      if !patchOk {
        return StatusPatchFailed;
      }
      active, activeWindow, nextWindow := result.active, result.activeWindow, result.nextWindow;
      if paused.Some? {
        gitopsPausedCount := paused.value;
      }
      return Requeue(result.requeueAfter);
    }
  }

  class ChangeFreezeResource {
    const spec: ChangeFreeze
    var active: bool
    var timeRemaining: Option<Duration>
    var gitopsPausedCount: nat

    constructor (spec: ChangeFreeze)
      ensures this.spec == spec && !active && timeRemaining.None? && gitopsPausedCount == 0
    {
      this.spec := spec;
      active, timeRemaining, gitopsPausedCount := false, None, 0;
    }

    // During the freeze side effects get the flag itself.
    method Reconcile(now: Time, client: GitOpsReconciler.Client, crons: CronJobPass.CronClient, patchOk: bool)
      returns (outcome: Outcome)
      requires GitOpsPass.WellFormed(client.server, client.store)
      requires CronJobPass.OrderInStore(crons.server, crons.store)
      modifies this, client, crons
      ensures var r := FreezeSchedule.Evaluate(now, spec);
              && outcome == (if patchOk then Requeue(r.requeueAfter) else StatusPatchFailed)
              && active == (if patchOk then r.active else old(active))
              && timeRemaining == (if patchOk then r.timeRemaining else old(timeRemaining))
              && client.store == GitOpsAfter(client.server, old(client.store), spec.behavior, spec.name, r.active)
              && crons.store == CronJobsAfter(crons.server, old(crons.store), spec.behavior, spec.target, spec.name, r.active)
              && (if patchOk then
                    CountIsExact(client.server, old(client.store), client.store, spec.behavior, spec.name, r.active, gitopsPausedCount)
                  else gitopsPausedCount == old(gitopsPausedCount))
      ensures spec.behavior.gitops.None? || !spec.behavior.gitops.value.enabled ==> gitopsPausedCount == old(gitopsPausedCount)
    {
      hide GitOpsAfter, CronJobsAfter, GitOpsPass.WellFormed, CronJobPass.OrderInStore;
      var start, end := spec.startTime, spec.endTime;
      var nowActive := !(now < start) && now < end;
      var remaining: Option<Duration> := None;
      var requeueAfter: Duration;
      if nowActive {
        var left := Sub(end, now);
        remaining := Some(left);
        requeueAfter := AddWrapping(left, SECOND);
      } else {
        if now < start {
          requeueAfter := AddWrapping(Sub(start, now), SECOND);
        } else {
          requeueAfter := TEN_MINUTES;
        }
      }
      var paused := ApplySideEffects(client, crons, spec.behavior, spec.target, spec.name, nowActive);
      if !patchOk {
        return StatusPatchFailed;
      }
      active, timeRemaining := nowActive, remaining;
      if paused.Some? {
        gitopsPausedCount := paused.value;
      }
      return Requeue(requeueAfter);
    }
  }
}
