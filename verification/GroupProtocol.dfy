/** The reconcile protocol of Ingress groups as a step machine: load the group, add finalizers to
    its members, deploy, remove finalizers from those that left. Groups are reconciled
    concurrently, every call may fail, a failed deployment may have been partly applied, and users
    edit and delete Ingresses at any time. */
module GroupProtocol {
  import opened Options
  import opened Names
  import opened IngressGroups
  import Finalizers

  /** Where the reconciler of one group is. It works from the names it loaded. */
  datatype Phase =
    | Idle
    | Adding(members: set<NamespacedName>, inactive: set<NamespacedName>, todo: set<NamespacedName>)
    | Removing(todo: set<NamespacedName>)

  /** `hosted` says which Ingresses the deployed load balancer of a group serves. */
  datatype State = State(
    ingresses: map<NamespacedName, Ingress>,
    hosted: map<GroupID, set<NamespacedName>>,
    phases: map<GroupID, Phase>)

  function Hosted(s: State, g: GroupID): set<NamespacedName> {
    if g in s.hosted then s.hosted[g] else {}
  }

  function PhaseOf(s: State, g: GroupID): Phase {
    if g in s.phases then s.phases[g] else Idle
  }

  datatype Step =
    // users and the API server
    | Create(ing: Ingress)
    | Edit(name: NamespacedName, class_: ClassOutcome, groupAnnotation: Option<string>, order: OrderAnnotation)
    | Delete(name: NamespacedName)
    | OthersSetFinalizers(name: NamespacedName, list: seq<string>)
    // the reconciler of group g
    | LoadGroup(g: GroupID)
    | AddFinalizer(g: GroupID, name: NamespacedName)
    | DeploySucceeds(g: GroupID)
    | DeployFails(g: GroupID, applied: set<NamespacedName>)
    | RemoveFinalizer(g: GroupID, name: NamespacedName)
    | Stop(g: GroupID)  // any error return, a crash, or the end of the reconciliation

  function Classified(s: State, g: GroupID, kind: Membership): set<NamespacedName> {
    set n | n in s.ingresses && MembershipOf(g, s.ingresses[n]) == Ok(kind)
  }

  predicate Loadable(s: State, g: GroupID) {
    && (forall n :: n in s.ingresses ==> MembershipOf(g, s.ingresses[n]).Ok?)
    && (forall n :: n in Classified(s, g, ActiveMember) ==> OrderValid(s.ingresses[n]))
  }

  function WithFinalizer(ing: Ingress, g: GroupID): Ingress {
    ing.(finalizers := Finalizers.Apply(ing.finalizers, Finalizers.Add([Finalizer(g)])))
  }

  function WithoutFinalizer(ing: Ingress, g: GroupID): Ingress {
    ing.(finalizers := Finalizers.Apply(ing.finalizers, Finalizers.Remove([Finalizer(g)])))
  }

  lemma AddingHolds(ing: Ingress, g: GroupID, h: GroupID)
    ensures Holds(ing, h) ==> Holds(WithFinalizer(ing, g), h)
    ensures MayBelong(g, ing.name) ==> Holds(WithFinalizer(ing, g), g)
  {
    Finalizers.AddAllElements(ing.finalizers, [Finalizer(g)], Finalizer(h));
    Finalizers.AddAllElements(ing.finalizers, [Finalizer(g)], Finalizer(g));
  }

  lemma RemovingHolds(ing: Ingress, g: GroupID, h: GroupID)
    requires ing.name.namespace != "" && MayBelong(g, ing.name) && Holds(ing, h) && h != g
    ensures Holds(WithoutFinalizer(ing, g), h)
  {
    Finalizers.RemoveAllElements(ing.finalizers, [Finalizer(g)], Finalizer(h));
    if Finalizer(h) == Finalizer(g) {
      FinalizersDistinguishGroups(ing, g, h);
    }
  }

  /** Storing an Ingress; the API server drops a deleted one with its last finalizer. */
  function Store(s: State, ing: Ingress): State {
    s.(ingresses := if ing.deleting && ing.finalizers == [] then s.ingresses - {ing.name} else s.ingresses[ing.name := ing])
  }

  function SetPhase(s: State, g: GroupID, phase: Phase): State {
    s.(phases := s.phases[g := phase])
  }

  predicate SameGroupFinalizers(ing: Ingress, list: seq<string>) {
    && (IMPLICIT_FINALIZER in ing.finalizers <==> IMPLICIT_FINALIZER in list)
    && (forall f :: f in ing.finalizers && EXPLICIT_PREFIX <= f ==> f in list)
    && (forall f :: f in list && EXPLICIT_PREFIX <= f ==> f in ing.finalizers)
  }

  /** One step; a step that is not possible in a state leaves it unchanged. */
  function Do(s: State, step: Step): State {
    match step
    case Create(ing) =>
      if ing.name in s.ingresses || ing.name.namespace == "" || ing.finalizers != [] || ing.deleting then s else Store(s, ing)
    case Edit(n, c, a, o) =>
      if n !in s.ingresses then s else Store(s, s.ingresses[n].(class_ := c, groupAnnotation := a, order := o))
    case Delete(n) => if n !in s.ingresses then s else Store(s, s.ingresses[n].(deleting := true))
    case OthersSetFinalizers(n, list) =>
      if n !in s.ingresses || !SameGroupFinalizers(s.ingresses[n], list) then s else Store(s, s.ingresses[n].(finalizers := list))
    case LoadGroup(g) =>
      if !PhaseOf(s, g).Idle? || !Loadable(s, g) then s
      else SetPhase(s, g, Adding(Classified(s, g, ActiveMember), Classified(s, g, InactiveMember), Classified(s, g, ActiveMember)))
    case AddFinalizer(g, n) => DoAdd(s, g, n)
    case DeploySucceeds(g) =>
      var p := PhaseOf(s, g);
      if !p.Adding? || p.todo != {} then s
      else SetPhase(s, g, Removing(p.inactive)).(hosted := s.hosted[g := p.members])
    case DeployFails(g, applied) =>
      var p := PhaseOf(s, g);
      if !p.Adding? || p.todo != {} || !(applied <= Hosted(s, g) + p.members) then s
      else SetPhase(s, g, Idle).(hosted := s.hosted[g := applied])
    case RemoveFinalizer(g, n) => DoRemove(s, g, n)
    case Stop(g) => SetPhase(s, g, Idle)
  }

  /** Adding the finalizer fails for an Ingress that is gone, and for one being deleted that does
      not hold it yet. */
  function DoAdd(s: State, g: GroupID, n: NamespacedName): State {
    var p := PhaseOf(s, g);
    if !p.Adding? || n !in p.todo then s
    else if n !in s.ingresses then SetPhase(s, g, Idle)
    else
      var ing := s.ingresses[n];
      if Finalizer(g) in ing.finalizers then SetPhase(s, g, p.(todo := p.todo - {n}))
      else if ing.deleting then SetPhase(s, g, Idle)
      else SetPhase(Store(s, WithFinalizer(ing, g)), g, p.(todo := p.todo - {n}))
  }

  function DoRemove(s: State, g: GroupID, n: NamespacedName): State {
    var p := PhaseOf(s, g);
    if !p.Removing? || n !in p.todo then s
    else if n !in s.ingresses then SetPhase(s, g, Idle)
    else
      var ing := s.ingresses[n];
      SetPhase(Store(s, WithoutFinalizer(ing, g)), g, p.(todo := p.todo - {n}))
  }

  function Run(s: State, steps: seq<Step>): State {
    if steps == [] then s else Do(Run(s, steps[..|steps| - 1]), steps[|steps| - 1])
  }

  // ---------------------------------------------------------------- safety

  ghost predicate HolderExists(s: State, g: GroupID, n: NamespacedName) {
    n in s.ingresses && Holds(s.ingresses[n], g)
  }

  /** Only an explicit group, or the Ingress's own, can have it as a member. */
  predicate MayBelong(g: GroupID, n: NamespacedName) {
    IsExplicit(g) || n == g
  }

  ghost predicate WellFormed(s: State) {
    forall n :: n in s.ingresses ==> s.ingresses[n].name == n && n.namespace != ""
  }

  /** Finalizers are added before deploying, and are only being removed from Ingresses that are no
      longer hosted. */
  ghost predicate PhaseSafe(s: State, g: GroupID, phase: Phase) {
    match phase
    case Idle => true
    case Adding(members, inactive, todo) =>
      && members !! inactive && Hosted(s, g) <= members + inactive
      && (forall n :: n in members + inactive ==> MayBelong(g, n))
      && (forall n :: n in members && n !in todo ==> HolderExists(s, g, n))
    case Removing(todo) => todo !! Hosted(s, g) && forall n :: n in todo ==> MayBelong(g, n)
  }

  /** A hosted Ingress exists and holds the finalizer of the group. */
  ghost predicate GroupSafe(s: State, g: GroupID) {
    (forall n :: n in Hosted(s, g) ==> HolderExists(s, g, n)) && PhaseSafe(s, g, PhaseOf(s, g))
  }

  ghost predicate Safe(s: State) {
    WellFormed(s) && forall g :: GroupSafe(s, g)
  }

  /** Storing a version of an Ingress that holds what it held keeps every group safe. */
  lemma StoreKeepsSafe(s: State, ing: Ingress)
    requires Safe(s) && ing.name.namespace != ""
    requires ing.name in s.ingresses ==> forall g :: Holds(s.ingresses[ing.name], g) ==> Holds(ing, g)
    ensures Safe(Store(s, ing))
  {
    var t := Store(s, ing);
    forall g, n | HolderExists(s, g, n) ensures HolderExists(t, g, n) {
      assert n == ing.name ==> Holds(ing, g);
    }
    forall g ensures GroupSafe(t, g) {
      assert GroupSafe(s, g);
    }
  }

  /** Moving one group to a new phase, possibly with a new deployment. */
  function Advance(s: State, g: GroupID, phase: Phase, hosted: set<NamespacedName>): State {
    SetPhase(s, g, phase).(hosted := s.hosted[g := hosted])
  }

  lemma AdvanceKeepsSafe(s: State, g: GroupID, phase: Phase, hosted: set<NamespacedName>)
    requires Safe(s) && forall n :: n in hosted ==> HolderExists(s, g, n)
    requires PhaseSafe(Advance(s, g, phase, hosted), g, phase)
    ensures Safe(Advance(s, g, phase, hosted))
  {
    var t := Advance(s, g, phase, hosted);
    assert forall h, n :: HolderExists(t, h, n) <==> HolderExists(s, h, n);
    forall h ensures GroupSafe(t, h) {
      assert GroupSafe(s, h);
    }
  }

  lemma SetPhaseKeepsSafe(s: State, g: GroupID, phase: Phase)
    requires Safe(s) && PhaseSafe(s, g, phase)
    ensures Safe(SetPhase(s, g, phase))
  {
    var t := SetPhase(s, g, phase);
    assert forall h, n :: HolderExists(t, h, n) <==> HolderExists(s, h, n);
    forall h ensures GroupSafe(t, h) {
      assert GroupSafe(s, h);
    }
  }

  lemma OtherFinalizersKeepHolding(ing: Ingress, list: seq<string>, g: GroupID)
    requires SameGroupFinalizers(ing, list) && Holds(ing, g)
    ensures Holds(ing.(finalizers := list), g)
  {
    if IsExplicit(g) {
      assert EXPLICIT_PREFIX <= Finalizer(g);
    }
  }

  lemma LoadedMayBelong(s: State, g: GroupID, n: NamespacedName, kind: Membership)
    requires WellFormed(s) && n in Classified(s, g, kind) && kind != NotAMember
    ensures MayBelong(g, n)
  {
  }

  /** A group that can be loaded accounts for every holder of its finalizer. */
  lemma HoldersAreLoaded(s: State, g: GroupID)
    requires Loadable(s, g)
    ensures forall n :: HolderExists(s, g, n) ==> n in Classified(s, g, ActiveMember) + Classified(s, g, InactiveMember)
  {
    forall n | HolderExists(s, g, n) ensures n in Classified(s, g, ActiveMember) + Classified(s, g, InactiveMember) {
      assert MembershipOf(g, s.ingresses[n]).Ok?;
    }
  }

  lemma AddKeepsSafe(s: State, g: GroupID, n: NamespacedName)
    requires Safe(s)
    ensures Safe(DoAdd(s, g, n))
  {
    var p := PhaseOf(s, g);
    assert GroupSafe(s, g);
    if p.Adding? && n in p.todo {
      var mid, phase := s, Idle;
      if n in s.ingresses {
        var ing := s.ingresses[n];
        if Finalizer(g) in ing.finalizers {
          phase := p.(todo := p.todo - {n});
        } else if !ing.deleting {
          phase := p.(todo := p.todo - {n});
          forall h ensures Holds(ing, h) ==> Holds(WithFinalizer(ing, g), h) {
            AddingHolds(ing, g, h);
          }
          AddingHolds(ing, g, g);
          StoreKeepsSafe(s, WithFinalizer(ing, g));
          mid := Store(s, WithFinalizer(ing, g));
          assert GroupSafe(mid, g) && PhaseOf(mid, g) == p;
        }
      }
      SetPhaseKeepsSafe(mid, g, phase);
    }
  }

  lemma RemoveKeepsOthersSafe(s: State, g: GroupID, n: NamespacedName, h: GroupID)
    requires Safe(s) && PhaseOf(s, g).Removing? && n in PhaseOf(s, g).todo && n in s.ingresses
    ensures GroupSafe(DoRemove(s, g, n), h)
  {
    var t := DoRemove(s, g, n);
    var ing := s.ingresses[n];
    assert GroupSafe(s, g) && GroupSafe(s, h);
    forall m | HolderExists(s, h, m) && !(h == g && m == n) ensures HolderExists(t, h, m) {
      if m == n {
        RemovingHolds(ing, g, h);
      }
    }
  }

  lemma StepKeepsSafe(s: State, step: Step)
    requires Safe(s)
    ensures Safe(Do(s, step))
  {
    var t := Do(s, step);
    match step
    case Create(ing) =>
      if t != s {
        StoreKeepsSafe(s, ing);
      }
    case Edit(n, c, a, o) =>
      if n in s.ingresses {
        StoreKeepsSafe(s, s.ingresses[n].(class_ := c, groupAnnotation := a, order := o));
      }
    case Delete(n) =>
      if n in s.ingresses {
        StoreKeepsSafe(s, s.ingresses[n].(deleting := true));
      }
    case OthersSetFinalizers(n, list) =>
      if n in s.ingresses && SameGroupFinalizers(s.ingresses[n], list) {
        forall g | Holds(s.ingresses[n], g) ensures Holds(s.ingresses[n].(finalizers := list), g) {
          OtherFinalizersKeepHolding(s.ingresses[n], list, g);
        }
        StoreKeepsSafe(s, s.ingresses[n].(finalizers := list));
      }
    case AddFinalizer(g, n) => AddKeepsSafe(s, g, n);
    case RemoveFinalizer(g, n) =>
      if PhaseOf(s, g).Removing? && n in PhaseOf(s, g).todo {
        if n in s.ingresses {
          forall h ensures GroupSafe(t, h) {
            RemoveKeepsOthersSafe(s, g, n, h);
          }
        } else {
          SetPhaseKeepsSafe(s, g, Idle);
        }
      }
    case LoadGroup(g) =>
      forall n | n in Classified(s, g, ActiveMember) + Classified(s, g, InactiveMember) ensures MayBelong(g, n) {
        LoadedMayBelong(s, g, n, if n in Classified(s, g, ActiveMember) then ActiveMember else InactiveMember);
      }
      if t != s {
        assert GroupSafe(s, g);
        HoldersAreLoaded(s, g);
        SetPhaseKeepsSafe(s, g, PhaseOf(t, g));
      }
    case DeploySucceeds(g) =>
      assert GroupSafe(s, g);
      if PhaseOf(s, g).Adding? && PhaseOf(s, g).todo == {} {
        AdvanceKeepsSafe(s, g, Removing(PhaseOf(s, g).inactive), PhaseOf(s, g).members);
      }
    case DeployFails(g, applied) =>
      assert GroupSafe(s, g);
      if PhaseOf(s, g).Adding? && PhaseOf(s, g).todo == {} && applied <= Hosted(s, g) + PhaseOf(s, g).members {
        AdvanceKeepsSafe(s, g, Idle, applied);
      }
    case Stop(g) => SetPhaseKeepsSafe(s, g, Idle);
  }

  predicate Initial(s: State) {
    s.hosted == map[] && s.phases == map[] && forall n :: n in s.ingresses ==> s.ingresses[n].name == n && n.namespace != ""
  }

  /** Over every run, in every reachable state: an Ingress hosted by a group's load balancer exists
      and holds that group's finalizer. */
  lemma {:induction false} HostedHoldFinalizer(s: State, steps: seq<Step>)
    requires Initial(s)
    ensures Safe(Run(s, steps))
    ensures forall g, n :: n in Hosted(Run(s, steps), g) ==> HolderExists(Run(s, steps), g, n)
  {
    if steps == [] {
      forall g ensures GroupSafe(s, g) {}
    } else {
      HostedHoldFinalizer(s, steps[..|steps| - 1]);
      StepKeepsSafe(Run(s, steps[..|steps| - 1]), steps[|steps| - 1]);
    }
    forall g, n | n in Hosted(Run(s, steps), g) ensures HolderExists(Run(s, steps), g, n) {
      assert GroupSafe(Run(s, steps), g);
    }
  }

  /** An Ingress that is gone is hosted by nobody. */
  lemma GoneMeansUnhosted(s: State, steps: seq<Step>, g: GroupID, n: NamespacedName)
    requires Initial(s) && n !in Run(s, steps).ingresses
    ensures n !in Hosted(Run(s, steps), g)
  {
    HostedHoldFinalizer(s, steps);
  }

  ghost predicate Lists(listing: seq<Ingress>, s: State) {
    && (forall ing :: ing in listing ==> ing.name in s.ingresses && s.ingresses[ing.name] == ing)
    && (forall n :: n in s.ingresses ==> s.ingresses[n] in listing)
  }

  /** The machine loads what the loader returns for any listing of the stored Ingresses: the same
      members and inactive holders, and it fails for the same states. */
  lemma LoaderAgreesOnMembers(s: State, g: GroupID, listing: seq<Ingress>, kind: Membership, n: NamespacedName)
    requires WellFormed(s) && Lists(listing, s)
    ensures n in Classified(s, g, kind) <==> exists ing :: ing in Select(g, listing, kind) && ing.name == n
  {
    if n in Classified(s, g, kind) {
      SelectElements(g, listing, kind, s.ingresses[n]);
    }
    if ing :| ing in Select(g, listing, kind) && ing.name == n {
      SelectElements(g, listing, kind, ing);
    }
  }

  lemma LoaderAgreesOnFailure(s: State, g: GroupID, listing: seq<Ingress>)
    requires WellFormed(s) && Lists(listing, s)
    ensures Loadable(s, g) <==> && (forall ing :: ing in listing ==> MembershipOf(g, ing).Ok?)
                                && (forall ing :: ing in Select(g, listing, ActiveMember) ==> OrderValid(ing))
  {
    forall ing | ing in listing
      ensures ing in Select(g, listing, ActiveMember) <==> ing.name in Classified(s, g, ActiveMember)
    {
      SelectElements(g, listing, ActiveMember, ing);
    }
    forall ing | ing in Select(g, listing, ActiveMember) ensures ing in listing {
      SelectElements(g, listing, ActiveMember, ing);
    }
  }

  // ---------------------------------------------------------------- broken classes

  /** The step edits or deletes n. */
  predicate Touches(step: Step, n: NamespacedName) {
    match step
    case Edit(m, _, _, _) => m == n
    case Delete(m) => m == n
    case _ => false
  }

  /** The reconciliation in flight, if any, does not treat n as an Ingress that leaves the group. */
  predicate NotLeaving(phase: Phase, n: NamespacedName) {
    match phase
    case Idle => true
    case Adding(_, inactive, _) => n !in inactive
    case Removing(todo) => n !in todo
  }

  /** The class of n is broken, and n holds the finalizer of the group and is not leaving it. */
  ghost predicate BrokenHolder(s: State, g: GroupID, n: NamespacedName) {
    HolderExists(s, g, n) && s.ingresses[n].class_.InvalidClass? && !s.ingresses[n].deleting && NotLeaving(PhaseOf(s, g), n)
  }

  /** The group is at rest and stays so, with what it hosts. */
  ghost predicate StaysAtRest(s: State, t: State, g: GroupID) {
    PhaseOf(s, g).Idle? ==> PhaseOf(t, g).Idle? && Hosted(t, g) == Hosted(s, g)
  }

  /** A failed deployment of the group that was applied to the point of dropping n. */
  predicate FailsDropping(step: Step, g: GroupID, n: NamespacedName) {
    step.DeployFails? && step.g == g && n !in step.applied
  }

  lemma StoreStaysBroken(s: State, ing: Ingress, g: GroupID, n: NamespacedName)
    requires WellFormed(s) && BrokenHolder(s, g, n)
    requires ing.name == n ==> Holds(ing, g) && ing.class_.InvalidClass? && !ing.deleting
    ensures BrokenHolder(Store(s, ing), g, n)
  {
  }

  lemma BrokenRemove(s: State, h: GroupID, m: NamespacedName, g: GroupID, n: NamespacedName)
    requires WellFormed(s) && GroupSafe(s, h) && BrokenHolder(s, g, n)
    ensures BrokenHolder(DoRemove(s, h, m), g, n)
  {
    if PhaseOf(s, h).Removing? && m in PhaseOf(s, h).todo && m in s.ingresses {
      if m == n {
        RemovingHolds(s.ingresses[n], h, g);
      }
      StoreStaysBroken(s, WithoutFinalizer(s.ingresses[m], h), g, n);
    }
  }

  lemma BrokenAdd(s: State, h: GroupID, m: NamespacedName, g: GroupID, n: NamespacedName)
    requires WellFormed(s) && BrokenHolder(s, g, n)
    ensures BrokenHolder(DoAdd(s, h, m), g, n)
  {
    if m in s.ingresses {
      AddingHolds(s.ingresses[m], h, g);
      StoreStaysBroken(s, WithFinalizer(s.ingresses[m], h), g, n);
    }
  }

  lemma BrokenHolderStep(s: State, step: Step, g: GroupID, n: NamespacedName)
    requires Safe(s) && BrokenHolder(s, g, n) && !Touches(step, n)
    ensures BrokenHolder(Do(s, step), g, n)
  {
    match step
    case RemoveFinalizer(h, m) =>
      assert GroupSafe(s, h);
      BrokenRemove(s, h, m, g, n);
    case AddFinalizer(h, m) => BrokenAdd(s, h, m, g, n);
    case Create(ing) =>
      if ing.name !in s.ingresses {
        StoreStaysBroken(s, ing, g, n);
      }
    case Edit(m, c, a, o) =>
      if m in s.ingresses {
        StoreStaysBroken(s, s.ingresses[m].(class_ := c, groupAnnotation := a, order := o), g, n);
      }
    case Delete(m) =>
      if m in s.ingresses {
        StoreStaysBroken(s, s.ingresses[m].(deleting := true), g, n);
      }
    case OthersSetFinalizers(m, list) =>
      if m in s.ingresses && SameGroupFinalizers(s.ingresses[m], list) {
        if m == n {
          OtherFinalizersKeepHolding(s.ingresses[n], list, g);
        }
        StoreStaysBroken(s, s.ingresses[m].(finalizers := list), g, n);
      }
    case LoadGroup(h) => assert h == g ==> MembershipOf(g, s.ingresses[n]).Err?;
    case DeploySucceeds(h) =>
    case DeployFails(h, applied) =>
    case Stop(h) =>
  }

  /** No step changes what a group at rest hosts, and only a failed deployment takes n out of what any
      group hosts. */
  lemma BrokenHolderHosting(s: State, step: Step, g: GroupID, n: NamespacedName)
    requires Safe(s) && BrokenHolder(s, g, n)
    ensures StaysAtRest(s, Do(s, step), g)
    ensures n in Hosted(s, g) && !FailsDropping(step, g, n) ==> n in Hosted(Do(s, step), g)
  {
    assert GroupSafe(s, g);
    if step.LoadGroup? {
      assert step.g == g ==> MembershipOf(g, s.ingresses[n]).Err?;
    }
  }

  /** A holder whose class breaks, at rest or in the middle of a reconciliation, is never dropped: as
      long as nobody edits or deletes it, no run takes its finalizer away, and what the group hosts
      keeps it unless a deployment fails halfway. A group at rest even keeps all it hosts. */
  lemma {:induction false} BrokenHolderNeverDropped(s: State, steps: seq<Step>, g: GroupID, n: NamespacedName)
    requires Safe(s) && BrokenHolder(s, g, n) && forall i :: 0 <= i < |steps| ==> !Touches(steps[i], n)
    ensures Safe(Run(s, steps)) && BrokenHolder(Run(s, steps), g, n)
    ensures StaysAtRest(s, Run(s, steps), g)
    ensures n in Hosted(s, g) && (forall i :: 0 <= i < |steps| ==> !FailsDropping(steps[i], g, n)) ==> n in Hosted(Run(s, steps), g)
  {
    if steps != [] {
      BrokenHolderNeverDropped(s, steps[..|steps| - 1], g, n);
      var mid, last := Run(s, steps[..|steps| - 1]), steps[|steps| - 1];
      StepKeepsSafe(mid, last);
      BrokenHolderStep(mid, last, g, n);
      BrokenHolderHosting(mid, last, g, n);
    }
  }

  // ---------------------------------------------------------------- undisturbed reconciliations

  function SetOf(names: seq<NamespacedName>): set<NamespacedName> {
    set n | n in names
  }

  predicate Distinct(names: seq<NamespacedName>) {
    forall i, j :: 0 <= i < j < |names| ==> names[i] != names[j]
  }

  function Adds(g: GroupID, names: seq<NamespacedName>): seq<Step> {
    seq(|names|, i requires 0 <= i < |names| => AddFinalizer(g, names[i]))
  }

  function Removes(g: GroupID, names: seq<NamespacedName>): seq<Step> {
    seq(|names|, i requires 0 <= i < |names| => RemoveFinalizer(g, names[i]))
  }

  /** The finalizer has been added to the Ingresses `done`, and nothing else has changed. */
  ghost predicate Added(s: State, t: State, g: GroupID, done: set<NamespacedName>) {
    && PhaseOf(s, g).Adding? && PhaseOf(t, g) == PhaseOf(s, g).(todo := PhaseOf(s, g).todo - done)
    && t.hosted == s.hosted && t.ingresses.Keys == s.ingresses.Keys
    && forall n :: n in s.ingresses ==> t.ingresses[n] == if n in done then WithFinalizer(s.ingresses[n], g) else s.ingresses[n]
  }

  lemma AddOne(t: State, g: GroupID, n: NamespacedName)
    requires WellFormed(t) && PhaseOf(t, g).Adding? && n in PhaseOf(t, g).todo && n in t.ingresses && !t.ingresses[n].deleting
    ensures Added(t, Do(t, AddFinalizer(g, n)), g, {n})
  {
    if Finalizer(g) in t.ingresses[n].finalizers {
      Finalizers.AddPresent(t.ingresses[n].finalizers, Finalizer(g));
    }
  }

  lemma AddedThen(s: State, mid: State, t: State, g: GroupID, done: set<NamespacedName>, n: NamespacedName)
    requires Added(s, mid, g, done) && Added(mid, t, g, {n}) && n !in done
    ensures Added(s, t, g, done + {n})
  {
    assert PhaseOf(s, g).todo - done - {n} == PhaseOf(s, g).todo - (done + {n});
  }

  lemma {:induction false} AddAll(s: State, g: GroupID, names: seq<NamespacedName>)
    requires WellFormed(s) && PhaseOf(s, g).Adding? && Distinct(names)
    requires forall n :: n in names ==> n in PhaseOf(s, g).todo && n in s.ingresses && !s.ingresses[n].deleting
    ensures Added(s, Run(s, Adds(g, names)), g, SetOf(names))
  {
    if names != [] {
      var front, last := names[..|names| - 1], names[|names| - 1];
      AddAll(s, g, front);
      assert Adds(g, names)[..|names| - 1] == Adds(g, front);
      var mid := Run(s, Adds(g, front));
      assert last in names && last !in SetOf(front);
      AddOne(mid, g, last);
      AddedThen(s, mid, Run(s, Adds(g, names)), g, SetOf(front), last);
      assert SetOf(names) == SetOf(front) + {last};
    }
  }

  predicate WithoutHere(t: State, ing: Ingress, n: NamespacedName) {
    if ing.deleting && ing.finalizers == [] then n !in t.ingresses else n in t.ingresses && t.ingresses[n] == ing
  }

  /** The finalizer has been removed from the Ingresses `done`; a deleted one without any is gone. */
  ghost predicate Released(s: State, t: State, g: GroupID, done: set<NamespacedName>) {
    && PhaseOf(s, g).Removing? && PhaseOf(t, g) == Removing(PhaseOf(s, g).todo - done) && t.hosted == s.hosted
    && (forall n :: n !in done ==> (n in t.ingresses <==> n in s.ingresses))
    && (forall n :: n !in done && n in s.ingresses ==> t.ingresses[n] == s.ingresses[n])
    && (forall n :: n in done && n in s.ingresses ==> WithoutHere(t, WithoutFinalizer(s.ingresses[n], g), n))
  }

  lemma RemoveOne(t: State, g: GroupID, n: NamespacedName)
    requires WellFormed(t) && PhaseOf(t, g).Removing? && n in PhaseOf(t, g).todo && n in t.ingresses
    ensures Released(t, Do(t, RemoveFinalizer(g, n)), g, {n})
  {
  }

  lemma ReleasedThen(s: State, mid: State, t: State, g: GroupID, done: set<NamespacedName>, n: NamespacedName)
    requires Released(s, mid, g, done) && Released(mid, t, g, {n}) && n !in done
    ensures Released(s, t, g, done + {n})
  {
    assert PhaseOf(s, g).todo - done - {n} == PhaseOf(s, g).todo - (done + {n});
  }

  lemma {:induction false} RemoveAll(s: State, g: GroupID, names: seq<NamespacedName>)
    requires WellFormed(s) && PhaseOf(s, g).Removing? && Distinct(names)
    requires forall n :: n in names ==> n in PhaseOf(s, g).todo && n in s.ingresses
    ensures Released(s, Run(s, Removes(g, names)), g, SetOf(names))
  {
    if names != [] {
      var front, last := names[..|names| - 1], names[|names| - 1];
      RemoveAll(s, g, front);
      assert Removes(g, names)[..|names| - 1] == Removes(g, front);
      var mid := Run(s, Removes(g, front));
      assert last in names && last !in SetOf(front);
      RemoveOne(mid, g, last);
      ReleasedThen(s, mid, Run(s, Removes(g, names)), g, SetOf(front), last);
      assert SetOf(names) == SetOf(front) + {last};
    }
  }

  lemma {:induction false} RunConcat(s: State, a: seq<Step>, b: seq<Step>)
    ensures Run(s, a + b) == Run(Run(s, a), b)
  {
    if b == [] {
      assert a + b == a;
    } else {
      RunConcat(s, a, b[..|b| - 1]);
      assert (a + b)[..|a + b| - 1] == a + b[..|b| - 1];
    }
  }

  lemma RunOne(s: State, step: Step)
    ensures Run(s, [step]) == Do(s, step)
  {
    assert [step][..0] == [];
  }

  function Reconciliation(g: GroupID, members: seq<NamespacedName>, inactive: seq<NamespacedName>): seq<Step> {
    [LoadGroup(g)] + Adds(g, members) + [DeploySucceeds(g)] + Removes(g, inactive)
  }

  /** An Ingress that is still there does not have the finalizer of the group. */
  ghost predicate IsReleased(s: State, g: GroupID, n: NamespacedName) {
    n in s.ingresses ==> Finalizer(g) !in s.ingresses[n].finalizers
  }

  lemma ReleasedLoses(s: State, t: State, g: GroupID, done: set<NamespacedName>, n: NamespacedName)
    requires Released(s, t, g, done) && n in done && n in s.ingresses
    ensures IsReleased(t, g, n)
  {
    Finalizers.RemoveAllElements(s.ingresses[n].finalizers, [Finalizer(g)], Finalizer(g));
  }

  lemma AddedHolds(s: State, t: State, g: GroupID, done: set<NamespacedName>, n: NamespacedName)
    requires Added(s, t, g, done) && n in done && n in s.ingresses
    ensures n in t.ingresses && Finalizer(g) in t.ingresses[n].finalizers
  {
    Finalizers.AddAllElements(s.ingresses[n].finalizers, [Finalizer(g)], Finalizer(g));
  }

  /** An undisturbed reconciliation of a group that loads ends with a load balancer that hosts exactly
      the active members, all of which have the finalizer, while those that left have lost it. */
  lemma UndisturbedReconciliationConverges(s: State, g: GroupID, members: seq<NamespacedName>, inactive: seq<NamespacedName>)
    requires WellFormed(s) && PhaseOf(s, g).Idle? && Loadable(s, g) && Distinct(members) && Distinct(inactive)
    requires SetOf(members) == Classified(s, g, ActiveMember) && SetOf(inactive) == Classified(s, g, InactiveMember)
    ensures var after := Run(s, Reconciliation(g, members, inactive));
            && Hosted(after, g) == SetOf(members)
            && (forall n :: n in members ==> n in after.ingresses && Finalizer(g) in after.ingresses[n].finalizers)
            && (forall n :: n in inactive ==> IsReleased(after, g, n))
            && (forall n :: n in s.ingresses && n !in members && n !in inactive ==> n in after.ingresses && after.ingresses[n] == s.ingresses[n])
            && (forall h :: h != g ==> Hosted(after, h) == Hosted(s, h))
  {
    var loaded := Do(s, LoadGroup(g));
    RunReconciliation(s, g, members, inactive);
    LoadPrepares(s, g, members, inactive);
    AddAll(loaded, g, members);
    var added := Run(loaded, Adds(g, members));
    var deployed := Do(added, DeploySucceeds(g));
    DeployPrepares(loaded, added, g, members, inactive);
    RemoveAll(deployed, g, inactive);
    FinishedConverges(s, loaded, added, deployed, Run(deployed, Removes(g, inactive)), g, members, inactive);
  }

  lemma LoadPrepares(s: State, g: GroupID, members: seq<NamespacedName>, inactive: seq<NamespacedName>)
    requires WellFormed(s) && PhaseOf(s, g).Idle? && Loadable(s, g)
    requires SetOf(members) == Classified(s, g, ActiveMember) && SetOf(inactive) == Classified(s, g, InactiveMember)
    ensures var loaded := Do(s, LoadGroup(g));
            && loaded == SetPhase(s, g, Adding(SetOf(members), SetOf(inactive), SetOf(members))) && WellFormed(loaded)
            && (forall n :: n in members ==> n in s.ingresses && !s.ingresses[n].deleting)
            && (forall n :: n in inactive ==> n in s.ingresses && n !in members)
  {
    forall n | n in members ensures n in s.ingresses && !s.ingresses[n].deleting {
      assert n in SetOf(members);
      assert MembershipOf(g, s.ingresses[n]) == Ok(ActiveMember);
    }
    forall n | n in inactive ensures n in s.ingresses && n !in members {
      assert n in SetOf(inactive) && n !in SetOf(members);
    }
  }

  lemma DeployPrepares(loaded: State, added: State, g: GroupID, members: seq<NamespacedName>, inactive: seq<NamespacedName>)
    requires PhaseOf(loaded, g) == Adding(SetOf(members), SetOf(inactive), SetOf(members)) && WellFormed(loaded)
    requires Added(loaded, added, g, SetOf(members))
    ensures var deployed := Do(added, DeploySucceeds(g));
            && WellFormed(deployed) && PhaseOf(deployed, g) == Removing(SetOf(inactive))
            && deployed.ingresses == added.ingresses && deployed.hosted == added.hosted[g := SetOf(members)]
  {
  }

  lemma RunReconciliation(s: State, g: GroupID, members: seq<NamespacedName>, inactive: seq<NamespacedName>)
    ensures Run(s, Reconciliation(g, members, inactive)) ==
              Run(Do(Run(Do(s, LoadGroup(g)), Adds(g, members)), DeploySucceeds(g)), Removes(g, inactive))
  {
    RunOne(s, LoadGroup(g));
    RunConcat(s, [LoadGroup(g)], Adds(g, members));
    RunConcat(s, [LoadGroup(g)] + Adds(g, members), [DeploySucceeds(g)]);
    RunOne(Run(Do(s, LoadGroup(g)), Adds(g, members)), DeploySucceeds(g));
    RunConcat(s, [LoadGroup(g)] + Adds(g, members) + [DeploySucceeds(g)], Removes(g, inactive));
  }

  lemma FinishedConverges(
      s: State, loaded: State, added: State, deployed: State, after: State, g: GroupID,
      members: seq<NamespacedName>, inactive: seq<NamespacedName>)
    requires loaded.ingresses == s.ingresses && loaded.hosted == s.hosted
    requires Added(loaded, added, g, SetOf(members)) && Released(deployed, after, g, SetOf(inactive))
    requires deployed.ingresses == added.ingresses && deployed.hosted == added.hosted[g := SetOf(members)]
    requires forall n :: n in members ==> n in s.ingresses
    requires forall n :: n in inactive ==> n in s.ingresses && n !in members
    ensures Hosted(after, g) == SetOf(members) && (forall h :: h != g ==> Hosted(after, h) == Hosted(s, h))
    ensures forall n :: n in members ==> n in after.ingresses && Finalizer(g) in after.ingresses[n].finalizers
    ensures forall n :: n in inactive ==> IsReleased(after, g, n)
    ensures forall n :: n in s.ingresses && n !in members && n !in inactive ==> n in after.ingresses && after.ingresses[n] == s.ingresses[n]
  {
    forall n | n in members ensures n in after.ingresses && Finalizer(g) in after.ingresses[n].finalizers {
      AddedHolds(loaded, added, g, SetOf(members), n);
      assert n !in SetOf(inactive);
    }
    forall n | n in inactive ensures IsReleased(after, g, n) {
      ReleasedLoses(deployed, after, g, SetOf(inactive), n);
    }
  }
}
