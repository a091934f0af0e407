# kube-freeze-operator: a verified model

This project models the decision logic of kube-freeze-operator, a Kubernetes operator that freezes changes
outside maintenance windows and during change freezes, and proves what that logic guarantees. Four parts work
together: the evaluation of recurring windows and the scheduler built on it, the admission-time policy
evaluator, the pausing and resuming of Argo CD and Flux objects, and the suspending of CronJobs.

Run `dafny verify dfyconfig.toml` to check the whole project.

## How to read it

| module | subject |
|---|---|
| Wrappers, Clock, Schedules | options and results; Go times and durations; parsed cron schedules with a bounded search |
| CronWindows, CronLimits, CronDeadEnds, CronRestarts | one window at one instant; the cap, long durations, and searches that come back empty-handed |
| Policies | the policy resources, selectors, and what a set of windows means |
| WindowFold, FreezeSchedule | what the two controllers compute at one instant |
| TimedRuns, WindowRun, WindowExamples | runs of reconciles in time, exactly when a status stays right, and daily windows for which it does not |
| DenyOrder, Evaluator | the stable sort over deny candidates; the evaluator and its loops |
| EvaluatorMeaning, EvaluatorProperties, EvaluatorStability | a decision in plain terms, what its promise is worth, what it depends on |
| Webhook | admission of maintenance windows, and the agreement of controller and evaluator |
| GitOpsAnnotations, FluxObject, ArgoApplication | pausing and resuming one object, over any interleaving of policies |
| GitOpsPass, GitOpsReconciler, GitOpsProviders, GitOpsFailures, GitOpsRuns | one pass over the store with partial failure, the list loops, both providers, what failures do to a pass, many passes |
| CronJobOwnership, CronJobPass | first-writer ownership of one CronJob; one pass and many |
| Controllers, Enforcement, CronEnforcement | the two reconcile functions; side effects and admission side by side, for one policy |
| Fleets, CronFleets | the same for any number of policies at work on the same objects |

Code that works step by step is a method with its loops (`LookBack`, `EvaluateWindows`, `SortStable`,
`ReconcileItems`, ...), and objects that are edited in place are classes. Each such method is tied to a function
of its inputs or of the old state, and the lemmas speak about those functions.

## Modelling choices

- Time is an integer number of nanoseconds since Go's zero time. `Clock.Sub` saturates and `Clock.AddWrapping`
  wraps as 64-bit durations do.
- A parsed schedule is a set of minutes per timezone and a search limit. `Schedules.Next` is a bounded search that
  answers with the zero time when it finds nothing, as the cron library does. The limit is only required to be
  monotone and to reach 14 days ahead. The library looks to the end of the fifth year ahead, which matters for
  29 February around 2100 and its like (`CronDeadEnds.LeapDays`, in a calendar of years of 365 days).
- The library searches in the location of the instant it is given, and the zero time of a failed search is in UTC. A
  schedule therefore stands for the starts in UTC in the first centuries, which only a search that has failed before gets
  to, and for those in its zone ever after: `CronRestarts.LookbackAgrees` shows that this is the look-back of the code.
- A selector is a predicate with a flag for "does not parse".
- The Kubernetes client is a store, a set of objects that refuse to be updated, and an outcome for every list
  call. The enumeration order is arbitrary.
- An autosync map is identified with its JSON text.
- `rest` in an object stands for every field the operator does not touch.

## Where code and documentation differ

The model follows the code, also where it falls short of what it is for.

- `internal/gitops/reconciler.go:30-31` says that only state the operator changed is restored, and the guides
  (`docs/gitops-argocd.md:87-88`, `docs/gitops-flux.md:96-97`) that another policy does not restore it. In the code a
  policy that becomes active over an object of another policy takes it over and overwrites the saved original, so
  the user's value is lost: `FluxObject.TakeoverLosesOriginal`. `FluxObject.RunOutcome` and
  `ArgoApplication.RunOutcome` give the exact outcome in every run.
- `docs/architecture.md:162` promises the original state on deactivation. A CronJob's noted original is never read
  back and its owner never released: `CronJobOwnership.OnlyTheOwnerResumes`, `CronJobOwnership.SolePolicyDictates`.
- `api/v1alpha1/changefreeze_types.go:42` writes a closed interval; the code's is half-open.
- `api/v1alpha1/maintenancewindow_types.go:71` says that `active` means denies are enforced; the code sets it inside
  a window, when they are not.
- Owners are told apart by name alone: a freeze's pause survives a maintenance window that is inside a window if and
  only if the two have different names (`Enforcement.PauseSurvivesIff`). With different names it is meeting freezes
  that lose the user's value, and nothing else (`FluxObject.TookOverIff`, `FluxObject.SuspendedIff`).
- A freeze boundary further away than the longest 64-bit duration less a second gives a negative requeue delay, which
  asks for no requeue: `FreezeSchedule.RequeuePositiveIff`, `FreezeSchedule.FarFreezeIsForgotten`.
- A window that never starts (`0 0 30 2 *` is accepted) puts the zero time in front of every other next start, so
  the controller waits five minutes and misses an opening, and a denial promises the zero time:
  `WindowRun.StaysRightIff`, `WindowExamples.BlindBeforeMidnight`, `EvaluatorProperties.PromiseAheadIff`.
- Two windows that end less than a second apart can put the reconcile after the second end, depending on the order in
  which they are listed: `WindowFold.RequeueAtFirstEndIff`, `WindowExamples.SlipBeforeOne`.
- Two policies settle if and only if they are not both active on an object that both select; otherwise they take it from
  each other in every pass: `GitOpsRuns.TwoPoliciesSettleIff`, `GitOpsRuns.TwoActivePoliciesNeverSettle`.

The completeness conditions of a window (`CronWindows.Complete`) are: a duration of at most 14 days, at most 10001
starts in the last 14 days, and a search that goes on after the latest of them (or from their beginning).
`CronWindows.NextFound` shows that the next start is then found as well. `CronDeadEnds.ActiveExactly` gives the answer
of the code without any of them. A window is lost (`Policies.WindowLost`) when no next start is found and it is not
open; it is settled when it is complete or lost. The theorems about runs ask for settled windows.

## Model

| member | source | states |
|---|---|---|
| Schedules.NextIsLeast | internal/policy/windows.go:51 | a found next start is a start, later than the given instant, and no start lies between |
| Schedules.NextFinds | internal/policy/windows.go:42 | a start within the search limit is never skipped |
| CronWindows.LookBack | internal/policy/windows.go:38-49 | the look-back ends for every schedule after at most 10001 turns, zero-time cycles included, on the start the walk defines; no turn at all exactly when the first start found is later than now |
| CronWindows.EvalCronWindow | internal/policy/windows.go:21-71 | the evaluation with its three errors in order; active only if some start s has s <= now < s + duration |
| CronWindows.ActiveIsGenuine | internal/policy/windows.go:53-62 | for every schedule, cap and zero-time restart included, an active answer names a genuine start and its end around now |
| CronWindows.PrevStartExact | internal/policy/windows.go:38-49 | where the search goes on, or the cap comes first, the look-back stops at the last of the recent starts, or at the 10001st |
| CronWindows.PrevStartIsLatestVisible | internal/policy/windows.go:38-49 | it settles on the latest start among the first 10001 of the last 14 days |
| CronWindows.ActiveIffCovered | internal/policy/windows.go:36-62 | under the completeness conditions: active if and only if some start s has s <= now < s + duration |
| CronWindows.EvalFailsIff | internal/policy/windows.go:22-34 | each of the three errors with its exact condition, whatever the instant |
| CronLimits.SpacedNeverCapped | internal/policy/windows.go:40-49 | starts at least three minutes apart: at most 6720 in 14 days, never the cap |
| CronLimits.EveryTwoMinutesIsStale | internal/policy/windows.go:46-48 | a start every two minutes: 10080 recent starts, the look-back stays 79 starts (158 minutes) behind |
| CronLimits.EveryTwoMinutesMisread | internal/policy/windows.go:53-62 | so any duration up to 158 minutes reads inactive although two minutes already cover every instant, and from 160 minutes it reads active |
| CronLimits.LongWindowActiveIff | internal/policy/windows.go:38-62 | with a duration over 14 days: active if and only if there is a start in the last 14 days, so an older start that still covers now is missed |
| CronRestarts.LookbackAgrees | internal/policy/windows.go:36-51 | the look-back and the next start of a walk that moves to UTC at the zero time are those of one schedule: UTC in the first centuries, the zone ever after |
| CronRestarts.JoinedValid | internal/policy/windows.go:36-51 | that one schedule is as valid as the two it joins, if the library looks no further in UTC than in the zone where they meet |
| CronDeadEnds.LookbackRestarts | internal/policy/windows.go:40-49 | after a search that fails the walk goes on from the zero time with what is left of its 10000 steps |
| CronDeadEnds.LapRank | internal/policy/windows.go:40-49 | from there it laps round the earliest starts, and its remaining steps decide on which of them it stops |
| CronDeadEnds.ActiveExactly | internal/policy/windows.go:36-62 | the answer for every schedule, duration, cap and dead end: active if and only if a start the look-back can see, or at a dead end the one on which the laps stop, has a window that holds now |
| CronDeadEnds.ActiveIffGoesOn | internal/policy/windows.go:36-62 | windows of up to 14 days under the cap, whose walk turns back at some point a window before now: active if and only if the window is open and the search goes on |
| CronDeadEnds.DeadEndReadsInactive | internal/policy/windows.go:40-62 | at a dead end such a window reads inactive, whatever the duration |
| CronDeadEnds.LeapDayMissed | internal/policy/windows.go:40-62 | 29 February four years before a century without a leap day: the window is open and reads inactive as long as it is |
| Policies.OpenIffCovered | internal/policy/windows.go:21-71 | with settled windows some window of a list reads active if and only if some window covers the instant |
| Policies.SelectsIff | internal/policy/selectors.go:8-16 | an absent selector accepts everything, one that does not parse nothing, any other what it accepts |
| WindowFold.EvaluateWindows | internal/controller/maintenancewindow_controller.go:210-266 | the fold over all windows with its early error, statuses and delays, as a function of instant and policy |
| WindowFold.EvaluateSucceedsIff | internal/controller/maintenancewindow_controller.go:211-226 | succeeds if and only if the mode is supported and every window evaluates |
| WindowFold.EvaluateFailsFirst | internal/controller/maintenancewindow_controller.go:211-226 | the error is the unsupported mode, or names the first window that does not evaluate with its error |
| WindowFold.EvaluateStatus | internal/controller/maintenancewindow_controller.go:228-254 | active if and only if some window is open; then the status names the last open one with its start and end; the next window is named if and only if one is listed, and is an earliest one |
| WindowFold.RequeueBounds | internal/controller/maintenancewindow_controller.go:215-263 | the delay exceeds a second, is at most five minutes and k seconds with k open windows, and is under five minutes and a second when none is open |
| WindowFold.RequeueAtNextStart | internal/controller/maintenancewindow_controller.go:257-263 | closed: exactly a second past the least next start if that lies ahead by less than five minutes, and exactly five minutes otherwise or without windows |
| WindowFold.RequeueFarEnds | internal/controller/maintenancewindow_controller.go:236-240 | open with every end at least five minutes off: exactly five minutes |
| WindowExamples.DailyRhythm | internal/controller/maintenancewindow_controller.go:228-263 | a daily window of an hour: 121 s two minutes before midnight, 300 s at noon, 61 s a minute before it closes |
| WindowFold.RequeueAtFirstEndIff | internal/controller/maintenancewindow_controller.go:236-240 | the delay is never less than a second past the first end under five minutes, and exactly that if and only if no window listed after the last one with that end ends less than a second later |
| WindowFold.RequeueAtFirstEnd | internal/controller/maintenancewindow_controller.go:236-240 | with ends equal or a second apart, the delay is one second past the first end under five minutes |
| WindowFold.LaterEndPushesRequeue | internal/controller/maintenancewindow_controller.go:222-241 | the evaluation of two such windows: listed one way the delay is a second past the later end, the other way a second past the first |
| WindowExamples.SlipBeforeOne | internal/controller/maintenancewindow_controller.go:222-241 | daily windows of an hour and of an hour and half a second do this |
| TimedRuns.FlagIsAccurate | internal/controller/maintenancewindow_controller.go:199-200 | verdicts that stay right until a second before their requeue give a flag that is right except in the last second before a reconcile |
| WindowRun.StatusStaysRight | internal/controller/maintenancewindow_controller.go:228-263 | one evaluation of settled windows tells whether a window covers t, for every t until a second before the requeue, if it is active or its requeue arithmetic is not blind |
| WindowRun.StaysRightIff | internal/controller/maintenancewindow_controller.go:228-263 | it stays right until then if and only if it is active, or there are not both a window without a next start and one that opens within five minutes less a second |
| WindowRun.ZeroTimeDelay | internal/controller/maintenancewindow_controller.go:243-263 | inactive with a window without a next start: five minutes, and the zero time or earlier as the next window |
| WindowRun.RunAccuracy | internal/controller/maintenancewindow_controller.go:112-200 | over every timed run of such evaluations: the status says whether some window covers the instant, or a reconcile is less than a second away |
| WindowRun.RunAccuracyComplete | internal/controller/maintenancewindow_controller.go:112-200 | in particular when every window meets the three completeness conditions at every reconcile |
| WindowRun.RunAccurateIff | internal/controller/maintenancewindow_controller.go:112-200 | for runs that reconcile exactly when asked: the status is right throughout, but for the last seconds, if and only if no reconcile on the way was blind while inactive |
| WindowRun.ReconcilesSpread | internal/controller/maintenancewindow_controller.go:199-200 | n + 1 reconciles, each when the last one asked for it, span at least n seconds |
| WindowExamples.BlindBeforeMidnight | internal/controller/maintenancewindow_controller.go:243-263 | a daily window beside one that never starts: inactive two minutes before midnight, five minutes to wait, open at midnight |
| FreezeSchedule.StatusStaysRight | internal/controller/changefreeze_controller.go:81-132 | one evaluation of a freeze stays right until a second before the requeue |
| FreezeSchedule.RequeuePositiveIff | internal/controller/changefreeze_controller.go:91-132 | the delay is positive if and only if the next boundary is at most the longest duration less a second away, and is then exactly a second past it |
| FreezeSchedule.TimeRemainingIs | internal/controller/changefreeze_controller.go:92-111 | shown during the half-open interval only, and exact up to the longest duration |
| FreezeSchedule.FarFreezeIsForgotten | internal/controller/changefreeze_controller.go:126-127 | a freeze of the year 9999, evaluated in 2026, gets a delay of minus 292 years |
| FreezeSchedule.RunAccuracy | internal/controller/changefreeze_controller.go:78-183 | over every timed run the status says whether the freeze is on, or a reconcile is less than a second away |
| DenyOrder.SinkInto | internal/policy/evaluator.go:195-210 | one round of the in-place sort inserts an element stably into the sorted part |
| DenyOrder.SortStable | internal/policy/evaluator.go:195-210 | the array ends as the stable sort of what it was |
| DenyOrder.SelectDenyCandidate | internal/policy/evaluator.go:194-212 | sorts in place and returns the head |
| DenyOrder.StableSortElements | internal/policy/evaluator.go:195-210 | sorting keeps exactly the elements |
| DenyOrder.LessWeakOrder | internal/policy/evaluator.go:195-210 | the three-way comparator over optional times is a strict weak order |
| DenyOrder.ChosenIsFirstLeast | internal/policy/evaluator.go:194-212 | the head is the first of the least candidates |
| DenyOrder.ChosenIsMinimum | internal/policy/evaluator.go:96-112 | for candidates as the evaluator lists them the head comes before every other by next allowed time (none last), name, then freezes first |
| DenyOrder.StringLessIff | internal/policy/evaluator.go:209 | the order of names: a proper prefix, or the smaller character at the first difference |
| DenyOrder.ChosenIsEarliest | internal/policy/evaluator.go:194-212 | the chosen candidate is due no later than any other, none due last; at the same time no name comes before its own; at the same name the freeze wins |
| DenyOrder.ChoiceIgnoresOrder | internal/policy/evaluator.go:194-212 | two listings of the same candidates give the same choice |
| Evaluator.CollectChangeFreezes | internal/policy/evaluator.go:114-143 | the loop lists one candidate per freeze that matches and is on, in order |
| Evaluator.OutsideWindows | internal/policy/evaluator.go:164-179 | the inner loop with early exit and skipped errors: inside any window, or the best next start |
| Evaluator.CollectMaintenanceWindows | internal/policy/evaluator.go:145-192 | the loop lists one candidate per window policy that matches while outside its windows, in order |
| Evaluator.ConstraintsPass | internal/policy/evaluator.go:267-295 | true if and only if every required label is held, the user is allowed and some group is, in whatever order the map is walked |
| Evaluator.CheckExceptionOverride | internal/policy/evaluator.go:214-236 | the first granting exception; a failed list grants nothing |
| Evaluator.Evaluate | internal/policy/evaluator.go:31-80 | the decision or the first error, for every client, input and clock |
| EvaluatorMeaning.FreezeCandidateIs | internal/policy/evaluator.go:121-140 | a freeze denies if and only if kind, action, both selectors and the half-open interval match, with these fields |
| EvaluatorMeaning.WindowCandidateIs | internal/policy/evaluator.go:152-189 | a window policy denies if and only if kind, action, mode and both selectors match and no window is open, with these fields |
| EvaluatorMeaning.GrantsIff | internal/policy/evaluator.go:219-234 | an exception grants if and only if kind, action, both selectors, the half-open interval, labels, users and groups match |
| EvaluatorMeaning.AllowedExactly | internal/policy/evaluator.go:31-80 | in these terms: allowed if and only if nothing blocks or something passes, and every field of the decision that this settles |
| EvaluatorMeaning.FirstPassingIsNamed | internal/policy/evaluator.go:219-235 | the override named is the first exception on the list that passes |
| EvaluatorMeaning.DecisionIsEarliest | internal/policy/evaluator.go:62-79 | what is reported is due no later than anything else that denies, first by name then, and a freeze before a window of its name |
| EvaluatorMeaning.NamespaceMustMatch | internal/policy/evaluator.go:245-248 | a namespace selector that rejects the namespace rules a policy out, whatever the object |
| EvaluatorMeaning.ObjectLabelsDoNotMatter | internal/policy/evaluator.go:249-252 | without an object selector the object's labels change no candidate |
| EvaluatorMeaning.NamespaceLabelsDoNotMatter | internal/policy/evaluator.go:245-248 | without a namespace selector the namespace's labels change none |
| EvaluatorMeaning.ReachedIff | internal/policy/evaluator.go:82-94 | the labels used are those the request brings, or else those of the namespace it names |
| EvaluatorMeaning.DecideFailsIff | internal/policy/evaluator.go:32-56 | each of the five errors with its exact condition, and a decision otherwise |
| EvaluatorMeaning.ClockMattersIff | internal/policy/evaluator.go:36-38 | a request without a time is decided at the clock's, one with a time ignores the clock |
| EvaluatorProperties.CandidatesAre | internal/policy/evaluator.go:96-112 | the listed candidates are exactly those of the freezes and windows that deny |
| EvaluatorProperties.ScanWindowsMeaning | internal/policy/evaluator.go:164-179 | the scan says "inside" if and only if some window is open, wherever it left; otherwise its best next start is the least of all that evaluate |
| EvaluatorProperties.WindowCandidateMeaning | internal/policy/evaluator.go:145-192 | a window policy denies if and only if it covers the request and no window is open, and promises the earliest next start |
| EvaluatorProperties.FirstOverrideMeaning | internal/policy/evaluator.go:219-235 | an override is found if and only if some exception grants |
| EvaluatorProperties.AllowedIff | internal/policy/evaluator.go:31-80 | without list or get errors: allowed if and only if no policy denies or an exception grants |
| EvaluatorProperties.DecisionRepeatsChoice | internal/policy/evaluator.go:62-79 | the decision repeats a candidate that denies and that no other denying candidate precedes |
| EvaluatorProperties.WindowPromise | internal/policy/evaluator.go:164-189 | outside every window now means still denying at every instant before the promised one |
| EvaluatorProperties.WindowOpensOnTime | internal/policy/evaluator.go:164-189 | at the promised instant the policy no longer denies |
| EvaluatorProperties.PromiseAheadIff | internal/policy/evaluator.go:164-189 | with settled windows the promised instant lies ahead if and only if no window of the policy is without a next start |
| EvaluatorProperties.PromiseIsSound | internal/policy/evaluator.go:74-79 | after a denial with next allowed time T the matched policy denies at every t in [now, T), so only an exception can allow; only that policy's windows need to be complete |
| EvaluatorProperties.PromiseIsTight | internal/policy/evaluator.go:74-79 | if it is the only policy that covers the request, T is allowed without any matched policy |
| EvaluatorStability.MoreDeniesNeverAllow | internal/policy/evaluator.go:53-79 | adding deny policies never turns a denial into an admission |
| EvaluatorStability.MoreExceptionsNeverDeny | internal/policy/evaluator.go:64-79 | adding exceptions never turns an admission into a denial |
| EvaluatorStability.ExceptionOrderOnlyRenames | internal/policy/evaluator.go:214-236 | reordering exceptions changes at most which override is named |
| EvaluatorStability.DecisionIgnoresListOrder | internal/policy/evaluator.go:96-112 | with names unique per kind, the order in which the API lists either kind does not change the decision |
| Webhook.FirstComplaintMeaning | internal/webhook/v1alpha1/maintenancewindow_webhook.go:95-106 | the complaint names the first bad window, its schedule before its duration |
| Webhook.ComplaintIs | internal/webhook/v1alpha1/maintenancewindow_webhook.go:82-109 | each of the four complaints with its exact condition |
| Webhook.AcceptedIff | internal/webhook/v1alpha1/maintenancewindow_webhook.go:82-109 | accepted if and only if there is a window and none fails to evaluate at any instant |
| Webhook.ControllerAgreesWithEvaluator | internal/controller/maintenancewindow_controller.go:210-266 | on an accepted policy: inactive if and only if the evaluator denies, and then the status names the very instant the denial promises |
| FluxObject.RunOutcome | internal/gitops/flux.go:164-214 | over any interleaving of policies and failed updates: held means suspended with "user's value or a takeover happened" saved, free means exactly that value shows; nothing else changes |
| FluxObject.ReleasedValue | internal/gitops/flux.go:185-207 | released without a takeover the user's value is back; after a takeover the object stays suspended |
| FluxObject.ReleaseLeavesNoTrace | internal/gitops/flux.go:197-200 | once released the annotations are exactly the user's |
| FluxObject.ManagedIsPaused | internal/gitops/flux.go:164-214 | managed implies suspended, a saved original that parses, and an owner from the run |
| FluxObject.TakeoverLosesOriginal | internal/gitops/flux.go:161-171 | three steps of two policies after which a running object stays suspended for good |
| FluxObject.VisitWrites | internal/gitops/flux.go:161-207 | the four cases of a visit as they are stored: keys, values and fields |
| FluxObject.TookOverIff | internal/gitops/flux.go:161-171 | a takeover happens if and only if a successful visit finds its freeze on while another policy's last one did |
| FluxObject.SuspendedIff | internal/gitops/flux.go:164-214 | over any interleaving of any number of policies: suspended if and only if the user wants it so, two freezes have met, or some policy's last successful visit found its freeze on |
| ArgoApplication.SavedTextRoundTrips | internal/gitops/argocd.go:137-147 | the saved text decodes to what was saved and is never confused with the empty and "null" sentinels |
| ArgoApplication.DecodeIs | internal/gitops/argocd.go:166-173 | the sentinels restore nothing, the text of a map restores that map |
| ArgoApplication.VisitWrites | internal/gitops/argocd.go:129-179 | the four cases of a visit as they are stored: keys, values and fields |
| ArgoApplication.RunOutcome | internal/gitops/argocd.go:132-195 | over any interleaving: what a held Application has saved, and a free one shows, is the user's autosync, or nothing once a takeover happened; nothing else changes |
| ArgoApplication.ReleasedValue | internal/gitops/argocd.go:162-186 | released without a takeover the user's autosync is back; after a takeover there is none |
| ArgoApplication.ReleaseLeavesNoTrace | internal/gitops/argocd.go:176-179 | once released the annotations are exactly the user's |
| ArgoApplication.ManagedIsPaused | internal/gitops/argocd.go:132-195 | managed implies no autosync, a saved original that reads back, and an owner from the run |
| ArgoApplication.TookOverIff | internal/gitops/argocd.go:129-149 | the same for an Application |
| ArgoApplication.AutoSyncExactly | internal/gitops/argocd.go:132-195 | over any such interleaving: no autosync once two freezes have met or while some policy's last successful visit found its freeze on, and the user's otherwise |
| GitOpsPass.VisitMeaning | internal/gitops/flux.go:164-214 | one successful visit leaves the object held by the policy if and only if the freeze is on, and one already so is not changed |
| GitOpsPass.UndesiredAfter | internal/gitops/flux.go:129-140 | after a pass the objects not as wanted are exactly those that were not and whose update failed |
| GitOpsReconciler.Client.List | internal/gitops/flux.go:116-127 | a list call returns exactly the selected objects, once each |
| GitOpsReconciler.ReconcileFluxObject | internal/gitops/flux.go:148-215 | edits one object in hand; store, error, returned flag and number of writes after it |
| GitOpsReconciler.ReconcileArgoCDApp | internal/gitops/argocd.go:117-196 | the same for an Application |
| GitOpsReconciler.ReconcileItems | internal/gitops/flux.go:129-140 | best effort over one list: every update that does not fail is made, and the total is the number of objects marked in the resulting store |
| GitOpsReconciler.ReconcileResources | internal/gitops/flux.go:86-144 | all namespaces of one kind: what is visited before a failed list, the count, the error, and no count when the CRD is missing |
| GitOpsProviders.NamesAre | internal/gitops/reconciler.go:125-129 | the listed names are distinct and exactly those of matching namespaces |
| GitOpsProviders.ListMatchingNamespaces | internal/gitops/reconciler.go:109-130 | the matching names, or the selector's or the list's error |
| GitOpsProviders.ReconcileArgoCD | internal/gitops/argocd.go:45-113 | one pass over Applications: store, writes, error, and the count in every case, none when the CRD is missing |
| GitOpsProviders.ReconcileFlux | internal/gitops/flux.go:50-83 | Kustomizations, then HelmReleases unless the first failed: store, writes, error, and the count in every case, without the kind that failed or is missing |
| GitOpsProviders.Reconcile | internal/gitops/reconciler.go:68-101 | both providers: the count whatever fails; when all lists succeed it is exactly the number of selected objects marked by this policy in the resulting store whatever updates failed; zero when inactive; one error per failed provider |
| GitOpsProviders.PassKeysAreNamed | internal/gitops/reconciler.go:82-98 | when all lists succeed a pass gets to exactly the objects that the spec names |
| GitOpsFailures.ResourceErrorIs | internal/gitops/flux.go:97-127 | the pass over one kind fails if and only if its selector does not parse or some list fails with all before it successful |
| GitOpsFailures.ResourceKeysAre | internal/gitops/flux.go:108-140 | it gets to exactly the selected objects of the namespaces before the first list that does not succeed |
| GitOpsFailures.KindCountIs | internal/gitops/flux.go:121-138 | and counts the marks on them, or nothing if the CRD is missing |
| GitOpsFailures.MatchingNamespacesIs | internal/gitops/reconciler.go:109-130 | the two errors of the namespace list with their conditions, and the matching names otherwise |
| GitOpsFailures.ErrorsAre | internal/gitops/reconciler.go:80-100 | at most one error for each provider at work, that of Argo CD first |
| GitOpsFailures.ArgoFailsIff | internal/gitops/argocd.go:58-95 | when the reconcile of the Applications fails, by the outcomes of its lists, and with which error |
| GitOpsFailures.FluxFailsIff | internal/gitops/flux.go:61-82 | the same for Flux: on the Kustomizations, or else on the HelmReleases |
| GitOpsFailures.PassKeysAre | internal/gitops/reconciler.go:82-98 | whatever fails, a reconcile gets to exactly the objects named whose lists come before any failure |
| GitOpsFailures.HelmReleasesUntouched | internal/gitops/flux.go:68-72 | after a failed list of Kustomizations every HelmRelease is as it was |
| GitOpsFailures.HelmReleasesStillVisited | internal/gitops/flux.go:121-125 | after a missing Kustomization CRD the HelmReleases are visited all the same |
| GitOpsFailures.ArgoCountIs | internal/gitops/argocd.go:74-112 | the count of the Applications whatever fails |
| GitOpsFailures.FluxCountIs | internal/gitops/flux.go:66-82 | the count of the Flux objects whatever fails |
| GitOpsRuns.PassMakesProgress | internal/gitops/flux.go:129-140 | the number of selected objects not as wanted drops by exactly one per successful update |
| GitOpsRuns.FixpointIsQuiet | internal/gitops/flux.go:209-214 | where everything is as wanted a pass changes nothing |
| GitOpsRuns.OnePassConverges | internal/gitops/flux.go:129-140 | once updates stop failing one pass reaches the fixpoint and later passes change nothing |
| GitOpsRuns.TwoActivePoliciesNeverSettle | internal/gitops/flux.go:157-180 | no store suits two active policies that select the same updatable object, and each pass of one makes the next pass of the other write |
| GitOpsRuns.TwoPoliciesSettleIff | internal/gitops/flux.go:157-214 | one pass of each without failures leaves both policies satisfied if and only if they are not both active with an object that both select |
| GitOpsRuns.InactivePassReleases | internal/gitops/flux.go:185-207 | after an inactive pass the policy holds exactly what it held and could not restore |
| GitOpsRuns.ObjectsRunIndependently | internal/gitops/reconciler.go:68-101 | over any interleaving of passes each object's fate is the run of the visits it received |
| GitOpsRuns.ReachableManagedIsPaused | internal/gitops/reconciler.go:24-31 | in every reachable store a managed object is paused, with owner and original |
| GitOpsRuns.ReleasedFluxValue | internal/gitops/flux.go:185-207 | the exact value of a released Flux object in every reachable store |
| GitOpsRuns.ReleasedAppValue | internal/gitops/argocd.go:162-186 | the exact autosync of a released Application in every reachable store |
| CronJobOwnership.UnclaimedIsUntouched | internal/controller/cronjob_helper.go:66-83 | if no successful step wants anything else than the user's value, the stored object never changes |
| CronJobOwnership.OwnershipClosedForm | internal/controller/cronjob_helper.go:53-84 | the first claiming step's policy owns the object, the user's value is noted, and suspend is what the owner's last successful step wanted |
| CronJobOwnership.ClaimedOrNot | internal/controller/cronjob_helper.go:53-84 | one of the two cases always applies |
| CronJobOwnership.OwnershipIsForever | internal/controller/cronjob_helper.go:66-74 | owner and note survive every later run |
| CronJobOwnership.OnlyTheOwnerResumes | internal/controller/cronjob_helper.go:71-74 | a running CronJob claimed and suspended by one policy is never resumed by any other |
| CronJobOwnership.SolePolicyDictates | internal/controller/cronjob_helper.go:76-83 | under a sole policy suspend is what its last successful step wanted, whatever the user had |
| CronJobOwnership.VisitWrites | internal/controller/cronjob_helper.go:66-83 | a visit as it is stored: keys, values and fields |
| CronJobPass.UpdateCronJob | internal/controller/cronjob_helper.go:61-83 | the loop body: the note is stored only together with the suspend field |
| CronJobPass.UpdateListed | internal/controller/cronjob_helper.go:53-84 | one list response up to the first failed update |
| CronJobPass.UpdateNamespaces | internal/controller/cronjob_helper.go:47-85 | namespace by namespace up to the first failed list or update |
| CronJobPass.UpdateCronJobsForPolicy | internal/controller/cronjob_helper.go:24-88 | the whole pass: store, number of writes and error; nothing at all for a policy whose kinds leave CronJobs out |
| CronJobPass.TargetedIff | internal/controller/cronjob_helper.go:25-59 | a CronJob is targeted if and only if namespaces can be listed, the kinds include CronJobs, and its namespace and its labels match |
| CronJobPass.FailureIff | internal/controller/cronjob_helper.go:47-82 | a pass fails if and only if some list fails or some selected CronJob that is due refuses its update |
| CronJobPass.PassStops | internal/controller/cronjob_helper.go:49-82 | and then nothing is visited in any namespace that only comes later |
| CronJobPass.VisitedIsSelected | internal/controller/cronjob_helper.go:47-59 | a pass changes nothing that the policy does not select |
| CronJobPass.EverythingVisited | internal/controller/cronjob_helper.go:47-87 | when no list call fails and nothing selected refuses to be updated, it gets to everything selected and reports no error |
| CronJobPass.CronPassMakesProgress | internal/controller/cronjob_helper.go:47-85 | what is pending among the selected drops by exactly one per write |
| CronJobPass.CronPassConverges | internal/controller/cronjob_helper.go:47-85 | then one pass leaves nothing pending, and later passes change nothing |
| CronJobPass.CronJobsRunIndependently | internal/controller/cronjob_helper.go:47-85 | over any interleaving of passes each CronJob's fate is the run of its own visits |
| CronJobPass.StoreOwnership | internal/controller/cronjob_helper.go:53-84 | the closed form of ownership in every reachable store |
| Controllers.ApplySideEffects | internal/controller/changefreeze_controller.go:142-169 | the shared part: both stores after a policy's side effects, and the paused count |
| Controllers.MaintenanceWindowResource.Reconcile | internal/controller/maintenancewindow_controller.go:71-201 | status, side effects with the negated flag, requeue; an evaluation error leaves status and stores alone; a failed patch leaves the status alone but not the stores |
| Controllers.ChangeFreezeResource.Reconcile | internal/controller/changefreeze_controller.go:58-184 | the same for a freeze, with the flag itself |
| Enforcement.LastVisitFollowsFlag | internal/controller/maintenancewindow_controller.go:156-185 | the last visit of a run up to t froze if and only if the status at t calls for it |
| Enforcement.SolePolicyPauses | internal/gitops/reconciler.go:68-101 | under a sole policy an object is paused if and only if the user wants it so or the last visit froze |
| Enforcement.PausedIff | internal/gitops/reconciler.go:68-101 | under any number of policies an object is paused if and only if the user wants it so, two freezes have met, or some policy's last visit froze |
| Enforcement.ObjectFollowsRun | internal/gitops/reconciler.go:68-101 | over a controller's run on the store, every named object that accepts updates receives exactly the run's visits |
| Enforcement.PausedFollowsFlag | internal/controller/maintenancewindow_controller.go:170-185 | at every instant of a timed run the named objects are paused as the status flag and the user say |
| Enforcement.WindowFlagIsDenial | internal/controller/maintenancewindow_controller.go:172-175 | over a timed run the status is inactive if and only if the evaluator lists the policy, or a reconcile is less than a second away |
| Enforcement.WindowEnforcedInStep | internal/controller/maintenancewindow_controller.go:172-175 | at every instant a named object is paused if and only if the user wants it so or the evaluator lists the window policy, or a reconcile is less than a second away |
| Enforcement.FreezeEnforcedInStep | internal/controller/changefreeze_controller.go:157-159 | the same for freezes, with the opposite polarity |
| CronEnforcement.SuspendFollowsFlag | internal/controller/cronjob_helper.go:24-88 | at every instant of a timed run a targeted CronJob that no other policy holds is suspended as the status flag says, whatever the user had |
| CronEnforcement.WindowSuspendsInStep | internal/controller/maintenancewindow_controller.go:268-275 | such a CronJob is suspended if and only if the evaluator lists the window policy, or a reconcile is less than a second away |
| CronEnforcement.FreezeSuspendsInStep | internal/controller/changefreeze_controller.go:142-146 | the same for freezes, with the opposite polarity |
| Enforcement.PauseSurvivesIff | internal/gitops/flux.go:161-162 | a freeze's pause survives the visit of a policy inside its window if and only if their names differ; the evaluator denies either way |
| Fleets.SomeoneFrozeIff | internal/gitops/annotations.go:24-25 | some policy's last visit froze if and only if the status of one of the policies that name the object calls for a freeze |
| Fleets.PausedFollowsFlags | internal/controller/maintenancewindow_controller.go:170-185 | any number of policies, their reconciles in any order: a named object is paused if and only if the user wants it so, two freezes have met on it, or the status of a policy that names it calls for a freeze |
| Fleets.EnforcedInStep | internal/controller/maintenancewindow_controller.go:172-175 | the same in terms of admission: or the evaluator lists a policy that names it, unless one of these reconciles within a second |
| CronFleets.FirstClaimerRules | internal/controller/cronjob_helper.go:66-83 | any number of policies: a CronJob is either untouched, and every policy that targets it wants what the user wants, or it belongs to one of them and follows that one's status |
| CronFleets.OwnerSuspendsInStep | internal/controller/cronjob_helper.go:24-88 | the same in terms of admission: it is suspended if and only if the evaluator lists its owner |

## Left out

- The HTTP API, token authentication and the command line: input and output around the evaluator.
- Admission plumbing and the classification of diffs: decoding and single-branch mapping.
- The FreezeException controller and the validators of ChangeFreeze and FreezeException: the same half-open interval, or one comparison.
- Conditions, events, metrics, logging, finalizers, the Get of the reconciled object, the generation and reconcile-time fields of the status, and the Ready condition that an evaluation error patches.
- Status times as stored: the API keeps whole seconds, the model keeps the computed instants.
- Cron text, timezones and daylight saving: parsed by libraries that are not part of this model; a parsed schedule is a set of minutes per zone.
- The semantics of label selectors, and the inside of the JSON text of a saved autosync map: any text in braces counts as a map.
- Edits of paused objects by users, conflicts of resource versions other than as a failed update, and objects created or deleted during a run.
- Specs whose parent fields have the wrong type, where setting a nested field fails before the update.
- `behavior` of a deny candidate: it is set and never read.
- DenyOrder.SortStable: sorts by plain insertion; the library's stable sort merges blocks, with the same result for a strict weak order.
- Fleets.EnforcedInStep: successful updates of the object and an unchanging set of namespaces and list outcomes; windows that are neither complete nor lost are left to CronDeadEnds.ActiveExactly.
- CronFleets.FirstClaimerRules: the same, and no failed update among the policies' other targets, since a pass stops at the first one.
- CronRestarts.LookbackAgrees: for instants after the first centuries; earlier ones are not asked for.
- The two identical `updateCronJobsForPolicy` methods are modelled once.
