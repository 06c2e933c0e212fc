/** The reconcile protocol of a Gateway as a step machine: load, build, dry-run gate, record added
    addons, add the finalizer, deploy, record removed addons; on deletion, deploy nothing and
    remove the finalizer. Any call may fail, a failed deployment may have been partly applied, the
    controller may crash between any two steps, and users edit at any time. */
module GatewayProtocol {
  import opened Options
  import opened Addons

  const DRY_RUN := "gateway.k8s.aws/dry-run"
  const DRY_RUN_PLAN := "gateway.k8s.aws/dry-run-plan"

  /** `uid` tells objects of the same name apart; `protected` is the finalizer of this controller,
      `foreign` stands for all other finalizers. */
  datatype Gateway = Gateway(uid: nat, deleting: bool, protected: bool, foreign: bool, annotations: Annotations)

  /** What one reconciliation works with, taken from the object it loaded: the addons recorded as
      enabled and those the new model enables. */
  datatype Plan = Plan(
    uid: nat, deleting: bool, protected: bool, dryRun: bool, hasPlan: bool, current: set<Addon>, enabled: set<Addon>)
  {
    /** Without recorded addons, the model of a Gateway being deleted has no load balancer. */
    predicate HasLoadBalancer() {
      !(deleting && current == {})
    }

    predicate IsDryRun() {
      dryRun && !deleting && !protected
    }
  }

  datatype Phase =
    | Idle
    | Loaded(copy: Gateway)
    | Built(plan: Plan)
    | Cleaned(plan: Plan)    // no stale dry-run plan is left
    | Recorded(plan: Plan)   // added addons are recorded
    | Protected(plan: Plan)  // the finalizer is present
    | Deployed(plan: Plan)
    | Emptied                // the resources of a deleted Gateway are gone

  /** `resources` says whether any load balancer resource exists, `addons` which addons do;
      `nextUid` is the uid of the next Gateway to be created. */
  datatype State = State(
    gateway: Option<Gateway>, nextUid: nat, wanted: set<Addon>, supported: set<Addon>,
    resources: bool, addons: set<Addon>, phase: Phase)

  datatype Step =
    // users and the API server
    | Create(gw: Gateway)
    | Annotate(annotations: Annotations)
    | Configure(wanted: set<Addon>)
    | Delete
    | SetForeign(foreign: bool)
    // the controller
    | Load
    | Build
    | WriteDryRunPlan(json: string)
    | CleanUpDryRun
    | RecordAdditions
    | AddFinalizer
    | DeploySucceeds
    | DeployFails(resources: bool, addons: set<Addon>)
    | RecordRemovals
    | EmptySucceeds
    | EmptyFails(resources: bool)
    | RemoveFinalizer
    | Stop  // any error return, a crash, or the end of the reconciliation

  function PlanFor(gw: Gateway, wanted: set<Addon>, supported: set<Addon>): Plan {
    Plan(
      gw.uid, gw.deleting, gw.protected,
      DRY_RUN in gw.annotations && gw.annotations[DRY_RUN] == "true",
      DRY_RUN_PLAN in gw.annotations,
      RecordedIn(gw.annotations),
      if gw.deleting then {} else wanted * supported)
  }

  /** Storing the Gateway; the API server drops a deleted one with its last finalizer. */
  function Store(s: State, gw: Gateway): State {
    s.(gateway := if gw.deleting && !gw.protected && !gw.foreign then None else Some(gw))
  }

  /** A merge patch of the annotations; it fails if the Gateway is gone. */
  function Patch(s: State, annotations: Annotations -> Annotations, next: Phase): State {
    if s.gateway.None? then s.(phase := Idle)
    else Store(s, s.gateway.value.(annotations := annotations(s.gateway.value.annotations))).(phase := next)
  }

  /** One step; a step that is not possible in a state leaves it unchanged. */
  function Do(s: State, step: Step): State {
    match step
    case Create(gw) =>
      if s.gateway.Some? || gw.deleting || gw.protected then s
      else s.(gateway := Some(gw.(uid := s.nextUid)), nextUid := s.nextUid + 1)
    case Annotate(annotations) =>
      if s.gateway.None? || RecordedIn(annotations) != RecordedIn(s.gateway.value.annotations) then s
      else Store(s, s.gateway.value.(annotations := annotations))
    case Configure(wanted) => s.(wanted := wanted)
    case Delete => if s.gateway.None? then s else Store(s, s.gateway.value.(deleting := true))
    case SetForeign(foreign) => if s.gateway.None? then s else Store(s, s.gateway.value.(foreign := foreign))
    case Load => if !s.phase.Idle? || s.gateway.None? then s else s.(phase := Loaded(s.gateway.value))
    case Build => if !s.phase.Loaded? then s else s.(phase := Built(PlanFor(s.phase.copy, s.wanted, s.supported)))
    case WriteDryRunPlan(json) =>
      if !s.phase.Built? || !s.phase.plan.IsDryRun() then s
      else Patch(s, (a: Annotations) => a[DRY_RUN_PLAN := json], Idle)
    case CleanUpDryRun =>
      if !s.phase.Built? || s.phase.plan.IsDryRun() then s
      else if !s.phase.plan.hasPlan then s.(phase := Cleaned(s.phase.plan))
      else Patch(s, (a: Annotations) => a - {DRY_RUN_PLAN}, Cleaned(s.phase.plan))
    case RecordAdditions =>
      if !s.phase.Cleaned? then s
      else
        var p := s.phase.plan;
        if p.enabled - p.current == {} then s.(phase := Recorded(p))
        else Patch(s, (a: Annotations) => Recording(a, p.enabled - p.current, true), Recorded(p))
    case AddFinalizer => DoAddFinalizer(s)
    case DeploySucceeds =>
      if !s.phase.Protected? then s
      else s.(phase := Deployed(s.phase.plan), resources := true,
              addons := s.phase.plan.enabled + (s.addons - s.phase.plan.current))
    case DeployFails(resources, addons) =>
      if !s.phase.Protected? || (s.resources && !resources)
         || !(s.addons - s.phase.plan.current <= addons <= s.addons + s.phase.plan.enabled) then s
      else s.(phase := Idle, resources := resources, addons := addons)
    case RecordRemovals =>
      if !s.phase.Deployed? then s
      else
        var p := s.phase.plan;
        if p.current - p.enabled == {} then s.(phase := Idle)
        else Patch(s, (a: Annotations) => Recording(a, p.current - p.enabled, false), Idle)
    case EmptySucceeds =>
      if !s.phase.Recorded? || s.phase.plan.HasLoadBalancer() || !s.phase.plan.protected then s
      else s.(phase := Emptied, resources := false)
    case EmptyFails(resources) =>
      if !s.phase.Recorded? || s.phase.plan.HasLoadBalancer() || !s.phase.plan.protected || (resources && !s.resources) then s
      else s.(phase := Idle, resources := resources)
    case RemoveFinalizer =>
      if !s.phase.Emptied? then s
      else if s.gateway.None? then s.(phase := Idle)
      else Store(s, s.gateway.value.(protected := false)).(phase := Idle)
    case Stop => s.(phase := Idle)
  }

  /** The finalizer manager reads the object again by name; a finalizer cannot be added to an object
      being deleted. */
  function DoAddFinalizer(s: State): State {
    if !s.phase.Recorded? || !s.phase.plan.HasLoadBalancer() then s
    else if s.gateway.None? || (s.gateway.value.deleting && !s.gateway.value.protected) then s.(phase := Idle)
    else s.(gateway := Some(s.gateway.value.(protected := true)), phase := Protected(s.phase.plan))
  }

  function Run(s: State, steps: seq<Step>): State {
    if steps == [] then s else Do(Run(s, steps[..|steps| - 1]), steps[|steps| - 1])
  }

  predicate Initial(s: State) {
    s.gateway.None? && !s.resources && s.addons == {} && s.phase.Idle?
  }

  // ---------------------------------------------------------------- finalizer safety

  predicate IsProtected(s: State) {
    s.gateway.Some? && s.gateway.value.protected
  }

  /** Resources exist only under the finalizer, and the controller never works from a copy that
      misses the finalizer of the stored Gateway. */
  predicate FinalizerSafe(s: State) {
    && (s.resources ==> IsProtected(s))
    && match s.phase
       case Idle => true
       case Loaded(copy) => IsProtected(s) ==> copy.protected
       case Built(p) => IsProtected(s) ==> p.protected
       case Cleaned(p) => IsProtected(s) ==> p.protected
       case Recorded(p) => IsProtected(s) ==> p.protected
       case Protected(_) => IsProtected(s)
       case Deployed(_) => IsProtected(s)
       case Emptied => !s.resources
  }

  lemma StepKeepsFinalizerSafe(s: State, step: Step)
    requires FinalizerSafe(s)
    ensures FinalizerSafe(Do(s, step))
  {
  }

  /** Over every run with failures, partial deployments, crashes and user edits, including deleting
      and re-creating the Gateway at any moment: resources imply the finalizer. So a Gateway that is
      gone leaves no load balancer resources. */
  lemma {:induction false} ResourcesImplyFinalizer(s: State, steps: seq<Step>)
    requires Initial(s)
    ensures FinalizerSafe(Run(s, steps))
    ensures Run(s, steps).resources ==> Run(s, steps).gateway.Some? && Run(s, steps).gateway.value.protected
  {
    if steps != [] {
      ResourcesImplyFinalizer(s, steps[..|steps| - 1]);
      StepKeepsFinalizerSafe(Run(s, steps[..|steps| - 1]), steps[|steps| - 1]);
    }
  }

  /** The dry-run branch is taken only in states without resources, and creates none. */
  lemma DryRunTouchesNothing(s: State, steps: seq<Step>, json: string)
    requires Initial(s)
    ensures var now := Run(s, steps); var after := Do(now, WriteDryRunPlan(json));
            after != now ==> !now.resources && !after.resources && after.addons == now.addons
  {
    ResourcesImplyFinalizer(s, steps);
  }

  // ---------------------------------------------------------------- addon safety

  function RecordedNow(s: State): set<Addon> {
    if s.gateway.Some? then RecordedIn(s.gateway.value.annotations) else {}
  }

  predicate IsObject(s: State, uid: nat) {
    s.gateway.Some? && s.gateway.value.uid == uid
  }

  /** A reconciliation that loaded the object `uid`: if it was protected it still exists and is, and
      as long as it exists its record is the given one. Another object of the same name may have
      taken its place. */
  predicate Follows(s: State, uid: nat, protected: bool, record: set<Addon>) {
    && uid < s.nextUid
    && (protected ==> IsProtected(s) && IsObject(s, uid))
    && (IsObject(s, uid) ==> RecordedNow(s) == record)
  }

  predicate PhaseRecord(s: State) {
    match s.phase
    case Idle => true
    case Loaded(copy) => Follows(s, copy.uid, copy.protected, RecordedIn(copy.annotations))
    case Built(p) => Follows(s, p.uid, p.protected, p.current) && (p.deleting ==> p.enabled == {})
    case Cleaned(p) => Follows(s, p.uid, p.protected, p.current) && (p.deleting ==> p.enabled == {})
    case Recorded(p) => Follows(s, p.uid, p.protected, p.current + p.enabled) && (p.deleting ==> p.enabled == {})
    case Protected(p) => Follows(s, p.uid, p.protected, p.current + p.enabled) && IsProtected(s)
                         && p.enabled <= RecordedNow(s) && s.addons <= p.current + p.enabled
    case Deployed(p) => Follows(s, p.uid, p.protected, p.current + p.enabled) && IsProtected(s)
                        && p.enabled <= RecordedNow(s) && s.addons == p.enabled
    case Emptied => s.addons == {}
  }

  /** Every addon that exists is recorded on a Gateway that cannot vanish. */
  predicate AddonsRecorded(s: State) {
    s.addons <= RecordedNow(s) && (s.addons != {} ==> IsProtected(s))
  }

  predicate AddonSafe(s: State) {
    && FinalizerSafe(s) && AddonsRecorded(s) && PhaseRecord(s)
    && (s.gateway.Some? ==> s.gateway.value.uid < s.nextUid)
  }

  lemma DryRunKeysAreNotAddons(annotations: Annotations, json: string)
    ensures RecordedIn(annotations[DRY_RUN_PLAN := json]) == RecordedIn(annotations)
    ensures RecordedIn(annotations - {DRY_RUN_PLAN}) == RecordedIn(annotations)
  {
    forall a: Addon ensures Key(a) != DRY_RUN_PLAN {
      assert Key(a)[15] == '.' && DRY_RUN_PLAN[15] == '/';
    }
  }

  /** Adding the finalizer takes effect in this state. */
  predicate Protects(s: State) {
    s.phase.Recorded? && DoAddFinalizer(s).phase.Protected?
  }

  /** The object that is about to get the finalizer records the addons that are about to be made. */
  predicate PlanRecorded(s: State) {
    Protects(s) ==> s.phase.plan.enabled <= RecordedNow(s)
  }

  lemma UserStepKeepsAddonSafe(s: State, step: Step)
    requires AddonSafe(s) && (step.Create? || step.Annotate? || step.Configure? || step.Delete? || step.SetForeign?)
    ensures AddonSafe(Do(s, step))
  {
    StepKeepsFinalizerSafe(s, step);
  }

  lemma DryRunStepKeepsAddonSafe(s: State, step: Step)
    requires AddonSafe(s) && (step.WriteDryRunPlan? || step.CleanUpDryRun?)
    ensures AddonSafe(Do(s, step))
  {
    StepKeepsFinalizerSafe(s, step);
    if s.gateway.Some? {
      DryRunKeysAreNotAddons(s.gateway.value.annotations, if step.WriteDryRunPlan? then step.json else "");
    }
  }

  lemma RecordAdditionsKeepsAddonSafe(s: State)
    requires AddonSafe(s)
    ensures AddonSafe(Do(s, RecordAdditions))
  {
    StepKeepsFinalizerSafe(s, RecordAdditions);
    if s.gateway.Some? && s.phase.Cleaned? {
      RecordingRecords(s.gateway.value.annotations, s.phase.plan.enabled - s.phase.plan.current, true);
    }
  }

  lemma RecordRemovalsKeepsAddonSafe(s: State)
    requires AddonSafe(s)
    ensures AddonSafe(Do(s, RecordRemovals))
  {
    StepKeepsFinalizerSafe(s, RecordRemovals);
    if s.phase.Deployed? {
      RecordingRecords(s.gateway.value.annotations, s.phase.plan.current - s.phase.plan.enabled, false);
    }
  }

  lemma DeployStepKeepsAddonSafe(s: State, step: Step)
    requires AddonSafe(s) && (step.Load? || step.Build? || step.DeploySucceeds? || step.DeployFails? || step.Stop?)
    ensures AddonSafe(Do(s, step))
  {
    StepKeepsFinalizerSafe(s, step);
  }

  lemma FinalizerStepKeepsAddonSafe(s: State, step: Step)
    requires AddonSafe(s) && (step.AddFinalizer? || step.EmptySucceeds? || step.EmptyFails? || step.RemoveFinalizer?)
    requires step.AddFinalizer? ==> PlanRecorded(s)
    ensures AddonSafe(Do(s, step))
  {
    StepKeepsFinalizerSafe(s, step);
  }

  /** Every step keeps the invariant; adding the finalizer does if the plan is recorded. */
  lemma StepKeepsAddonSafe(s: State, step: Step)
    requires AddonSafe(s) && (step.AddFinalizer? ==> PlanRecorded(s))
    ensures AddonSafe(Do(s, step))
  {
    match step
    case Create(_) => UserStepKeepsAddonSafe(s, step);
    case Annotate(_) => UserStepKeepsAddonSafe(s, step);
    case Configure(_) => UserStepKeepsAddonSafe(s, step);
    case Delete => UserStepKeepsAddonSafe(s, step);
    case SetForeign(_) => UserStepKeepsAddonSafe(s, step);
    case WriteDryRunPlan(_) => DryRunStepKeepsAddonSafe(s, step);
    case CleanUpDryRun => DryRunStepKeepsAddonSafe(s, step);
    case RecordAdditions => RecordAdditionsKeepsAddonSafe(s);
    case RecordRemovals => RecordRemovalsKeepsAddonSafe(s);
    case AddFinalizer => FinalizerStepKeepsAddonSafe(s, step);
    case EmptySucceeds => FinalizerStepKeepsAddonSafe(s, step);
    case EmptyFails(_) => FinalizerStepKeepsAddonSafe(s, step);
    case RemoveFinalizer => FinalizerStepKeepsAddonSafe(s, step);
    case _ => DeployStepKeepsAddonSafe(s, step);
  }

  /** Whenever the run adds the finalizer, the plan is recorded on the object that gets it. */
  ghost predicate Guarded(s: State, steps: seq<Step>) {
    forall k :: 0 <= k < |steps| && steps[k].AddFinalizer? ==> PlanRecorded(Run(s, steps[..k]))
  }

  lemma GuardedFront(s: State, steps: seq<Step>)
    requires steps != []
    ensures Guarded(s, steps) <==>
              && Guarded(s, steps[..|steps| - 1])
              && (steps[|steps| - 1].AddFinalizer? ==> PlanRecorded(Run(s, steps[..|steps| - 1])))
  {
    var front := steps[..|steps| - 1];
    forall k | 0 <= k < |front| ensures front[..k] == steps[..k] && front[k] == steps[k] {}
  }

  /** Over every guarded run, with failures, partial deployments, crashes and user edits, each
      existing addon is recorded as enabled on the Gateway. A deployment that removes only recorded
      addons therefore never orphans one, and when the Gateway is gone nothing is left. */
  lemma {:induction false} AddonsAreRecorded(s: State, steps: seq<Step>)
    requires Initial(s) && Guarded(s, steps)
    ensures AddonSafe(Run(s, steps))
    ensures Run(s, steps).gateway.None? ==> Run(s, steps).addons == {} && !Run(s, steps).resources
  {
    if steps != [] {
      GuardedFront(s, steps);
      AddonsAreRecorded(s, steps[..|steps| - 1]);
      StepKeepsAddonSafe(Run(s, steps[..|steps| - 1]), steps[|steps| - 1]);
    }
  }

  /** The guard can only fail for an object that was created during the reconciliation: the object
      that was loaded does record the plan. */
  lemma LoadedObjectRecordsPlan(s: State, steps: seq<Step>)
    requires Initial(s) && Guarded(s, steps) && Protects(Run(s, steps))
    ensures IsObject(Run(s, steps), Run(s, steps).phase.plan.uid) ==> PlanRecorded(Run(s, steps))
    ensures Run(s, steps).phase.plan.protected ==> PlanRecorded(Run(s, steps))
  {
    AddonsAreRecorded(s, steps);
  }

  /** At the end and at every earlier point of the run, existing addons are recorded, and stay so if
      a deployment that is possible succeeds. */
  predicate AlwaysRecorded(s: State, steps: seq<Step>) {
    && AddonsRecorded(Run(s, steps))
    && AddonsRecorded(Do(Run(s, steps), DeploySucceeds))
    && (steps == [] || AlwaysRecorded(s, steps[..|steps| - 1]))
  }

  /** Deploying right after adding the finalizer keeps every addon recorded iff the plan is recorded
      on the object that got the finalizer. */
  lemma DeployKeepsRecordExactlyWhen(s: State)
    requires Protects(s) && s.addons <= RecordedNow(s)
    ensures AddonsRecorded(Do(Do(s, AddFinalizer), DeploySucceeds)) <==> PlanRecorded(s)
  {
    var after := Do(Do(s, AddFinalizer), DeploySucceeds);
    assert RecordedNow(after) == RecordedNow(s);
  }

  /** Exactly which runs are safe: along a run addons are always recorded if and only if the run is
      guarded. */
  lemma {:induction false} AlwaysRecordedExactlyWhenGuarded(s: State, steps: seq<Step>)
    requires Initial(s)
    ensures AlwaysRecorded(s, steps) <==> Guarded(s, steps)
  {
    if steps != [] {
      var mid := Run(s, steps[..|steps| - 1]);
      AlwaysRecordedExactlyWhenGuarded(s, steps[..|steps| - 1]);
      GuardedFront(s, steps);
      if Protects(mid) && AddonsRecorded(mid) {
        DeployKeepsRecordExactlyWhen(mid);
      }
      if Guarded(s, steps) {
        AddonsAreRecorded(s, steps);
        StepKeepsAddonSafe(Run(s, steps), DeploySucceeds);
      }
    }
  }

  lemma RemovalsLeave(record: set<Addon>, current: set<Addon>, enabled: set<Addon>)
    requires enabled <= record
    ensures enabled <= record - (current - enabled)
    ensures record - (current - enabled) == enabled <==> record <= current + enabled
  {
    if record - (current - enabled) == enabled {
      assert forall a :: a in record ==> a in enabled || a in current - enabled;
    }
  }

  /** Recording the removals takes them off the record and changes nothing else of interest. */
  lemma RecordRemovalsRecords(s: State)
    requires s.phase.Deployed? && IsProtected(s)
    ensures var t, p := Do(s, RecordRemovals), s.phase.plan;
            t.phase.Idle? && t.addons == s.addons && RecordedNow(t) == RecordedNow(s) - (p.current - p.enabled)
  {
    RecordingRecords(s.gateway.value.annotations, s.phase.plan.current - s.phase.plan.enabled, false);
  }

  /** After a fully successful update the existing addons are the desired ones and all of them are
      recorded. The record holds nothing else if and only if the object had recorded nothing but
      current and desired addons before, as the object that was loaded does. */
  lemma FullUpdateConverges(s: State, steps: seq<Step>)
    requires Initial(s) && Guarded(s, steps) && Run(s, steps).phase.Deployed?
    ensures var before := Run(s, steps); var after := Do(before, RecordRemovals); var p := before.phase.plan;
            && after.phase.Idle? && after.addons == p.enabled <= RecordedNow(after)
            && (RecordedNow(after) == p.enabled <==> RecordedNow(before) <= p.current + p.enabled)
            && (IsObject(before, p.uid) ==> RecordedNow(after) == p.enabled)
  {
    AddonsAreRecorded(s, steps);
    UpdateConverges(Run(s, steps));
  }

  lemma UpdateConverges(before: State)
    requires AddonSafe(before) && before.phase.Deployed?
    ensures var after := Do(before, RecordRemovals); var p := before.phase.plan;
            && after.phase.Idle? && after.addons == p.enabled <= RecordedNow(after)
            && (RecordedNow(after) == p.enabled <==> RecordedNow(before) <= p.current + p.enabled)
            && (IsObject(before, p.uid) ==> RecordedNow(after) == p.enabled)
  {
    RecordRemovalsRecords(before);
    RemovalsLeave(RecordedNow(before), before.phase.plan.current, before.phase.plan.enabled);
  }

  // ---------------------------------------------------------------- which Gateways get a dry run

  /** The object asks for a dry run and has never been provisioned. */
  predicate AsksForDryRun(gw: Gateway) {
    !gw.deleting && !gw.protected && "gateway.k8s.aws/dry-run" in gw.annotations && gw.annotations["gateway.k8s.aws/dry-run"] == "true"
  }

  /** Every object the run loads asks for a dry run. */
  predicate LoadsDryRunsOnly(s: State, steps: seq<Step>) {
    steps == [] ||
    (var front, last := steps[..|steps| - 1], steps[|steps| - 1];
     LoadsDryRunsOnly(s, front)
     && (last.Load? && Run(s, front).phase.Idle? && Run(s, front).gateway.Some? ==> AsksForDryRun(Run(s, front).gateway.value)))
  }

  predicate NothingProvisioned(s: State) {
    !s.resources && s.addons == {} && !IsProtected(s)
  }

  /** The reconciliation is at most at the point where the plan is written. */
  predicate DryRunOnly(s: State) {
    && NothingProvisioned(s)
    && match s.phase
       case Idle => true
       case Loaded(copy) => AsksForDryRun(copy)
       case Built(p) => p.IsDryRun()
       case _ => false
  }

  lemma StepKeepsDryRunOnly(s: State, step: Step)
    requires DryRunOnly(s) && (step.Load? && s.phase.Idle? && s.gateway.Some? ==> AsksForDryRun(s.gateway.value))
    ensures DryRunOnly(Do(s, step))
  {
  }

  /** If all that is ever loaded are unprovisioned Gateways that ask for a dry run, no point of the run
      has resources, addons or the finalizer. */
  lemma {:induction false} DryRunsProvisionNothing(s: State, steps: seq<Step>)
    requires Initial(s) && LoadsDryRunsOnly(s, steps)
    ensures DryRunOnly(Run(s, steps)) && NothingProvisioned(Run(s, steps))
  {
    if steps != [] {
      DryRunsProvisionNothing(s, steps[..|steps| - 1]);
      StepKeepsDryRunOnly(Run(s, steps[..|steps| - 1]), steps[|steps| - 1]);
    }
  }

  /** A plan is written, and nothing else can follow the build, exactly for a loaded object that asks
      for a dry run; every other one goes on without. */
  lemma DryRunExactlyWhenAsked(s: State, json: string)
    requires s.phase.Loaded?
    ensures var built := Do(s, Build);
            && (Do(built, WriteDryRunPlan(json)) != built ==> AsksForDryRun(s.phase.copy))
            && (AsksForDryRun(s.phase.copy) ==>
                  Do(built, WriteDryRunPlan(json)).phase.Idle? && Do(built, CleanUpDryRun) == built)
            && (!AsksForDryRun(s.phase.copy) && s.gateway.Some? ==> Do(built, CleanUpDryRun).phase.Cleaned?)
    ensures AsksForDryRun(s.phase.copy) && s.gateway.Some? ==>
              var after := Do(Do(s, Build), WriteDryRunPlan(json));
              after.gateway.Some? ==>
                "gateway.k8s.aws/dry-run-plan" in after.gateway.value.annotations
                && after.gateway.value.annotations["gateway.k8s.aws/dry-run-plan"] == json
  {
  }

  // ---------------------------------------------------------------- undisturbed reconciliations

  const UPDATE := [Load, Build, CleanUpDryRun, RecordAdditions, AddFinalizer, DeploySucceeds, RecordRemovals]
  const REMOVE := [Load, Build, CleanUpDryRun, RecordAdditions, EmptySucceeds, RemoveFinalizer]

  /** At rest, with an object that is there to be provisioned. */
  predicate Updatable(s: State) {
    AddonSafe(s) && s.phase.Idle? && s.gateway.Some? && !s.gateway.value.deleting && !AsksForDryRun(s.gateway.value)
  }

  /** The object and what is wanted of it, annotations aside. */
  predicate SameObject(s: State, t: State) {
    && s.gateway.Some? && t.gateway.Some?
    && t.gateway.value.(annotations := s.gateway.value.annotations) == s.gateway.value
    && t.wanted == s.wanted && t.supported == s.supported
  }

  predicate Stays(s: State) {
    s.gateway.Some? && (s.gateway.value.deleting ==> s.gateway.value.protected)
  }

  lemma UndisturbedBuild(s: State)
    requires AddonSafe(s) && s.phase.Idle? && Stays(s)
    ensures var t := Do(Do(s, Load), Build);
            && AddonSafe(t) && SameObject(s, t) && t.phase.Built?
            && t.phase.plan.uid == s.gateway.value.uid && t.phase.plan.deleting == s.gateway.value.deleting
            && t.phase.plan.protected == s.gateway.value.protected && t.phase.plan.current == RecordedNow(s)
            && t.phase.plan.enabled == (if s.gateway.value.deleting then {} else s.wanted * s.supported)
            && (t.phase.plan.IsDryRun() <==> AsksForDryRun(s.gateway.value))
  {
    StepKeepsAddonSafe(s, Load);
    StepKeepsAddonSafe(Do(s, Load), Build);
  }

  lemma UndisturbedCleanUp(s: State)
    requires AddonSafe(s) && s.phase.Built? && !s.phase.plan.IsDryRun() && Stays(s)
    ensures var t := Do(s, CleanUpDryRun); AddonSafe(t) && SameObject(s, t) && t.phase == Cleaned(s.phase.plan)
  {
    StepKeepsAddonSafe(s, CleanUpDryRun);
  }

  lemma UndisturbedRecording(s: State)
    requires AddonSafe(s) && s.phase.Cleaned? && Stays(s)
    ensures var t := Do(s, RecordAdditions); AddonSafe(t) && SameObject(s, t) && t.phase == Recorded(s.phase.plan)
  {
    StepKeepsAddonSafe(s, RecordAdditions);
  }

  lemma UndisturbedPreparation(s: State)
    requires AddonSafe(s) && s.phase.Idle? && Stays(s) && !AsksForDryRun(s.gateway.value)
    ensures var t := Do(Do(Do(Do(s, Load), Build), CleanUpDryRun), RecordAdditions);
            && AddonSafe(t) && SameObject(s, t) && t.phase.Recorded?
            && t.phase.plan.uid == s.gateway.value.uid && t.phase.plan.deleting == s.gateway.value.deleting
            && t.phase.plan.protected == s.gateway.value.protected && t.phase.plan.current == RecordedNow(s)
            && t.phase.plan.enabled == (if s.gateway.value.deleting then {} else s.wanted * s.supported)
  {
    UndisturbedBuild(s);
    UndisturbedCleanUp(Do(Do(s, Load), Build));
    UndisturbedRecording(Do(Do(Do(s, Load), Build), CleanUpDryRun));
  }

  lemma UndisturbedEmptying(t: State)
    requires AddonSafe(t) && t.phase.Recorded? && t.gateway.Some? && t.gateway.value.deleting && t.gateway.value.protected
    requires t.phase.plan.deleting && t.phase.plan.protected && t.phase.plan.current == {}
    ensures var after := Do(Do(t, EmptySucceeds), RemoveFinalizer);
            && !after.resources && after.addons == {} && !IsProtected(after)
            && (after.gateway.None? <==> !t.gateway.value.foreign)
  {
    StepKeepsAddonSafe(t, EmptySucceeds);
    StepKeepsAddonSafe(Do(t, EmptySucceeds), RemoveFinalizer);
  }

  lemma UndisturbedDeployment(t: State)
    requires AddonSafe(t) && t.phase.Recorded? && t.phase.plan.HasLoadBalancer() && t.gateway.Some?
    requires t.phase.plan.uid == t.gateway.value.uid && (t.gateway.value.deleting ==> t.gateway.value.protected)
    ensures var u := Do(Do(t, AddFinalizer), DeploySucceeds); var after := Do(u, RecordRemovals);
            && AddonSafe(after) && after.phase.Idle? && after.gateway.Some? && after.gateway.value.protected && after.resources
            && after.addons == t.phase.plan.enabled && RecordedNow(after) == t.phase.plan.enabled
            && after.gateway.value.deleting == t.gateway.value.deleting && after.gateway.value.foreign == t.gateway.value.foreign
            && after.wanted == t.wanted && after.supported == t.supported
  {
    StepKeepsAddonSafe(t, AddFinalizer);
    StepKeepsAddonSafe(Do(t, AddFinalizer), DeploySucceeds);
    var u := Do(Do(t, AddFinalizer), DeploySucceeds);
    UpdateConverges(u);
    StepKeepsAddonSafe(u, RecordRemovals);
  }

  lemma RunOfFour(s: State, a: Step, b: Step, c: Step, d: Step)
    ensures Run(s, [a, b, c, d]) == Do(Do(Do(Do(s, a), b), c), d)
  {
    RunUnfolds(s, [a, b, c, d], [s, Do(s, a), Do(Do(s, a), b), Do(Do(Do(s, a), b), c), Do(Do(Do(Do(s, a), b), c), d)]);
  }

  lemma UpdateRun(s: State)
    ensures var t := Do(Do(Do(Do(s, Load), Build), CleanUpDryRun), RecordAdditions);
            Run(s, UPDATE) == Do(Do(Do(t, AddFinalizer), DeploySucceeds), RecordRemovals)
            && Run(s, REMOVE) == Do(Do(t, EmptySucceeds), RemoveFinalizer)
  {
    var t := Do(Do(Do(Do(s, Load), Build), CleanUpDryRun), RecordAdditions);
    var first := [Load, Build, CleanUpDryRun, RecordAdditions];
    var second, third := [AddFinalizer, DeploySucceeds, RecordRemovals], [EmptySucceeds, RemoveFinalizer];
    RunOfFour(s, Load, Build, CleanUpDryRun, RecordAdditions);
    RunConcat(s, first, second);
    RunConcat(s, first, third);
    assert first + second == UPDATE && first + third == REMOVE;
    RunUnfolds(t, second,
               [t, Do(t, AddFinalizer), Do(Do(t, AddFinalizer), DeploySucceeds), Do(Do(Do(t, AddFinalizer), DeploySucceeds), RecordRemovals)]);
    RunUnfolds(t, third, [t, Do(t, EmptySucceeds), Do(Do(t, EmptySucceeds), RemoveFinalizer)]);
  }

  /** An undisturbed update provisions what is wanted and supported, and records exactly that. */
  lemma UndisturbedUpdateProvisions(s: State)
    requires Updatable(s)
    ensures var after := Run(s, UPDATE);
            && AddonSafe(after) && after.resources && IsProtected(after)
            && after.addons == s.wanted * s.supported && RecordedNow(after) == s.wanted * s.supported && NoStalePlan(after)
  {
    UndisturbedPreparation(s);
    var cleaned := Do(Do(Do(s, Load), Build), CleanUpDryRun);
    UndisturbedCleanUpRemovesPlan(s);
    StepKeepsNoStalePlan(cleaned, RecordAdditions);
    var recorded := Do(cleaned, RecordAdditions);
    StepKeepsNoStalePlan(recorded, AddFinalizer);
    StepKeepsNoStalePlan(Do(recorded, AddFinalizer), DeploySucceeds);
    StepKeepsNoStalePlan(Do(Do(recorded, AddFinalizer), DeploySucceeds), RecordRemovals);
    var t := Do(Do(Do(Do(s, Load), Build), CleanUpDryRun), RecordAdditions);
    UndisturbedDeployment(t);
    UpdateRun(s);
  }

  /** No plan of an earlier dry run is left on the object. */
  predicate NoStalePlan(s: State) {
    s.gateway.Some? ==> "gateway.k8s.aws/dry-run-plan" !in s.gateway.value.annotations
  }

  lemma RecordingKeepsNoPlan(annotations: Annotations, changes: set<Addon>, enabled: bool)
    requires DRY_RUN_PLAN !in annotations
    ensures DRY_RUN_PLAN !in Recording(annotations, changes, enabled)
  {
    forall a: Addon ensures Key(a) != DRY_RUN_PLAN {
      assert Key(a)[15] == '.' && DRY_RUN_PLAN[15] == '/';
    }
  }

  /** An undisturbed reconciliation that is no dry run removes it before anything else. */
  lemma UndisturbedCleanUpRemovesPlan(s: State)
    requires s.phase.Idle? && Stays(s) && !AsksForDryRun(s.gateway.value)
    ensures var t := Do(Do(Do(s, Load), Build), CleanUpDryRun); t.phase.Cleaned? && NoStalePlan(t)
  {
  }

  lemma StepKeepsNoStalePlan(s: State, step: Step)
    requires NoStalePlan(s) && !step.Create? && !step.Annotate? && !step.WriteDryRunPlan?
    ensures NoStalePlan(Do(s, step))
  {
    if s.gateway.Some? {
      match step
      case RecordAdditions =>
        if s.phase.Cleaned? {
          RecordingKeepsNoPlan(s.gateway.value.annotations, s.phase.plan.enabled - s.phase.plan.current, true);
        }
      case RecordRemovals =>
        if s.phase.Deployed? {
          RecordingKeepsNoPlan(s.gateway.value.annotations, s.phase.plan.current - s.phase.plan.enabled, false);
        }
      case _ =>
    }
  }

  /** A provisioned Gateway that is being deleted. */
  predicate Removable(s: State) {
    AddonSafe(s) && s.phase.Idle? && s.gateway.Some? && s.gateway.value.deleting && s.gateway.value.protected
  }

  /** With addons still recorded, an undisturbed reconciliation of a deleted Gateway removes them
      first. */
  lemma UndisturbedDeletionRemovesAddons(s: State)
    requires Removable(s) && RecordedNow(s) != {}
    ensures var after := Run(s, UPDATE);
            Removable(after) && after.addons == {} && RecordedNow(after) == {} && after.gateway.value.foreign == s.gateway.value.foreign
  {
    UndisturbedPreparation(s);
    var t := Do(Do(Do(Do(s, Load), Build), CleanUpDryRun), RecordAdditions);
    UndisturbedDeployment(t);
    UpdateRun(s);
  }

  /** Without, it removes everything and releases the object. */
  lemma UndisturbedDeletionReleases(s: State)
    requires Removable(s) && RecordedNow(s) == {}
    ensures var after := Run(s, REMOVE);
            && !after.resources && after.addons == {} && !IsProtected(after)
            && (after.gateway.None? <==> !s.gateway.value.foreign)
  {
    UndisturbedPreparation(s);
    var t := Do(Do(Do(Do(s, Load), Build), CleanUpDryRun), RecordAdditions);
    UpdateRun(s);
    UndisturbedEmptying(t);
  }

  // ---------------------------------------------------------------- re-creation

  /** A Gateway re-created before the additions are recorded does get the record: after recording,
      the plan is recorded iff the object already recorded those desired addons that the plan found
      recorded, for instance if the plan found none. */
  lemma RecordingRecordsPlanExactlyWhen(s: State)
    requires s.phase.Cleaned? && s.gateway.Some? && Do(s, RecordAdditions).gateway.Some?
    ensures var p := s.phase.plan;
            p.enabled <= RecordedNow(Do(s, RecordAdditions)) <==> p.enabled * p.current <= RecordedNow(s)
  {
    RecordAdditionsRecords(s);
    AdditionsReach(RecordedNow(s), s.phase.plan.current, s.phase.plan.enabled);
  }

  lemma StoreRecords(s: State, gw: Gateway, changes: set<Addon>)
    requires s.gateway.Some? && gw == s.gateway.value.(annotations := Recording(s.gateway.value.annotations, changes, true))
    requires Store(s, gw).gateway.Some?
    ensures RecordedNow(Store(s, gw)) == RecordedNow(s) + changes
  {
    RecordingRecords(s.gateway.value.annotations, changes, true);
  }

  lemma RecordAdditionsRecords(s: State)
    requires s.phase.Cleaned? && s.gateway.Some? && Do(s, RecordAdditions).gateway.Some?
    ensures RecordedNow(Do(s, RecordAdditions)) == RecordedNow(s) + (s.phase.plan.enabled - s.phase.plan.current)
  {
    var added := s.phase.plan.enabled - s.phase.plan.current;
    var annotations := s.gateway.value.annotations;
    if added == {} {
      assert Do(s, RecordAdditions) == s.(phase := Recorded(s.phase.plan));
    } else {
      StoreRecords(s, s.gateway.value.(annotations := Recording(annotations, added, true)), added);
    }
  }

  lemma AdditionsReach(record: set<Addon>, current: set<Addon>, enabled: set<Addon>)
    ensures enabled <= record + (enabled - current) <==> enabled * current <= record
  {
    if enabled <= record + (enabled - current) {
      assert forall a :: a in enabled * current ==> a !in enabled - current;
    }
  }

  const NEW_GATEWAY := Gateway(0, false, false, false, map[])

  function ShieldPlan(uid: nat): Plan {
    Plan(uid, false, false, false, false, {}, {Shield})
  }

  const RECORDING_SHIELD := [Create(NEW_GATEWAY), Configure({Shield}), Load, Build, CleanUpDryRun, RecordAdditions]
  const RECREATING := [Delete, Create(NEW_GATEWAY), AddFinalizer, DeploySucceeds]

  lemma RecordingShield(s: State)
    requires Initial(s) && Shield in s.supported
    ensures var t := Run(s, RECORDING_SHIELD);
            && t.phase == Recorded(ShieldPlan(s.nextUid)) && t.addons == {}
            && t.gateway.Some? && !t.gateway.value.protected && !t.gateway.value.foreign
  {
    var s1 := Do(s, Create(NEW_GATEWAY));
    var s2 := Do(s1, Configure({Shield}));
    var s3 := Do(s2, Load);
    var s4 := Do(s3, Build);
    assert s4.phase == Built(ShieldPlan(s.nextUid)) by {
      assert RecordedIn(NEW_GATEWAY.annotations) == {} && {Shield} * s.supported == {Shield};
    }
    var s5 := Do(s4, CleanUpDryRun);
    var s6 := Do(s5, RecordAdditions);
    RunUnfolds(s, RECORDING_SHIELD, [s, s1, s2, s3, s4, s5, s6]);
  }

  lemma RecreatingAfterRecording(s: State, uid: nat)
    requires s.phase == Recorded(ShieldPlan(uid)) && s.addons == {}
    requires s.gateway.Some? && !s.gateway.value.protected && !s.gateway.value.foreign
    ensures var t := Run(s, RECREATING); t.addons == {Shield} && RecordedNow(t) == {}
  {
    var s1 := Do(s, Delete);
    var s2 := Do(s1, Create(NEW_GATEWAY));
    var s3 := Do(s2, AddFinalizer);
    var s4 := Do(s3, DeploySucceeds);
    RunUnfolds(s, RECREATING, [s, s1, s2, s3, s4]);
  }

  /** The guard can fail: deleting and re-creating the Gateway between recording an addon and adding
      the finalizer leaves an existing addon unrecorded. */
  lemma RecreationOrphansAddon(s: State)
    requires Initial(s) && Shield in s.supported
    ensures var steps := RECORDING_SHIELD + RECREATING; var end := Run(s, steps);
            end.addons == {Shield} && RecordedNow(end) == {} && !Guarded(s, steps)
  {
    var steps := RECORDING_SHIELD + RECREATING;
    RecordingShield(s);
    RecreatingAfterRecording(Run(s, RECORDING_SHIELD), s.nextUid);
    RunConcat(s, RECORDING_SHIELD, RECREATING);
    if Guarded(s, steps) {
      AddonsAreRecorded(s, steps);
    }
  }

  lemma {:induction false} RunConcat(s: State, a: seq<Step>, b: seq<Step>)
    ensures Run(s, a + b) == Run(Run(s, a), b)
  {
    if b == [] {
      assert a + b == a;
    } else {
      RunConcat(s, a, b[..|b| - 1]);
      assert (a + b)[..|a + b| - 1] == a + b[..|b| - 1];
    }
  }

  lemma {:induction false} RunUnfolds(s: State, steps: seq<Step>, states: seq<State>)
    requires |states| == |steps| + 1 && states[0] == s
    requires forall i :: 0 <= i < |steps| ==> states[i + 1] == Do(states[i], steps[i])
    ensures Run(s, steps) == states[|steps|]
  {
    if steps != [] {
      RunUnfolds(s, steps[..|steps| - 1], states[..|steps|]);
    }
  }
}
