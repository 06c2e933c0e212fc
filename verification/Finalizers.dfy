/** The finalizer writer: get the object, change its finalizer list, and patch it back under an
    optimistic lock, retrying on conflict. Every patch replaces the whole list, so concurrent
    calls are modelled as interleaved steps on one stored object. */
module Finalizers {
  import opened Options

  /** Add and Remove are this writer's calls; Replace is a write of the list by anyone else. */
  datatype Op = Add(names: seq<string>) | Remove(names: seq<string>) | Replace(list: seq<string>)

  function AddAll(list: seq<string>, names: seq<string>): seq<string>
    decreases names
  {
    if names == [] then list
    else AddAll(if names[0] in list then list else list + [names[0]], names[1..])
  }

  function Without(list: seq<string>, name: string): seq<string> {
    if list == [] then []
    else (if list[0] == name then [] else [list[0]]) + Without(list[1..], name)
  }

  function RemoveAll(list: seq<string>, names: seq<string>): seq<string>
    decreases names
  {
    if names == [] then list else RemoveAll(Without(list, names[0]), names[1..])
  }

  function Apply(list: seq<string>, op: Op): seq<string> {
    match op
    case Add(names) => AddAll(list, names)
    case Remove(names) => RemoveAll(list, names)
    case Replace(l) => l
  }

  lemma {:induction false} WithoutElements(list: seq<string>, name: string, f: string)
    ensures f in Without(list, name) <==> f in list && f != name
    ensures name in list ==> |Without(list, name)| < |list|
    ensures name !in list ==> Without(list, name) == list
  {
    if list != [] {
      WithoutElements(list[1..], name, f);
      assert list == [list[0]] + list[1..];
      LengthWithout(list[1..], name);
    }
  }

  lemma {:induction false} LengthWithout(list: seq<string>, name: string)
    ensures |Without(list, name)| <= |list|
  {
    if list != [] {
      LengthWithout(list[1..], name);
    }
  }

  lemma {:induction false} AddAllElements(list: seq<string>, names: seq<string>, f: string)
    ensures f in AddAll(list, names) <==> f in list || f in names
    ensures list <= AddAll(list, names)
    decreases names
  {
    if names != [] {
      AddAllElements(if names[0] in list then list else list + [names[0]], names[1..], f);
      assert names == [names[0]] + names[1..];
    }
  }

  lemma {:induction false} RemoveAllElements(list: seq<string>, names: seq<string>, f: string)
    ensures f in RemoveAll(list, names) <==> f in list && f !in names
    ensures |RemoveAll(list, names)| <= |list|
    decreases names
  {
    if names != [] {
      WithoutElements(list, names[0], f);
      LengthWithout(list, names[0]);
      RemoveAllElements(Without(list, names[0]), names[1..], f);
      assert names == [names[0]] + names[1..];
    }
  }

  /** The list part of AddFinalizers: appends what is missing and says whether a patch is needed. */
  method AddMissing(list: seq<string>, names: seq<string>) returns (updated: seq<string>, needsUpdate: bool)
    ensures updated == Apply(list, Add(names))
    ensures needsUpdate <==> updated != list
  {
    updated, needsUpdate := list, false;
    for i := 0 to |names|
      invariant AddAll(list, names) == AddAll(updated, names[i..])
      invariant list <= updated && (needsUpdate <==> |updated| > |list|)
    {
      assert names[i..][1..] == names[i + 1..];
      if names[i] !in updated {
        updated := updated + [names[i]];
        needsUpdate := true;
      }
    }
  }

  /** The list part of RemoveFinalizers. */
  method RemovePresent(list: seq<string>, names: seq<string>) returns (updated: seq<string>, needsUpdate: bool)
    ensures updated == Apply(list, Remove(names))
    ensures needsUpdate <==> updated != list
  {
    updated, needsUpdate := list, false;
    for i := 0 to |names|
      invariant RemoveAll(list, names) == RemoveAll(updated, names[i..])
      invariant if needsUpdate then |updated| < |list| else updated == list
    {
      assert names[i..][1..] == names[i + 1..];
      WithoutElements(updated, names[i], names[i]);
      if names[i] in updated {
        updated := Without(updated, names[i]);
        needsUpdate := true;
      }
    }
  }

  // ---------------------------------------------------------------- concurrent calls

  type CallId = nat

  datatype Phase =
    | Reading                                   // about to get the object
    | Holding(version: nat, list: seq<string>)  // holds the copy it got, about to patch
    | Returned(ok: bool)

  datatype Call = Call(op: Op, phase: Phase)

  datatype Commit = ByCall(id: CallId, op: Op) | ByOther(list: seq<string>)
  {
    function Change(): Op {
      if ByCall? then op else Replace(list)
    }
  }

  /** `commits` records, in order, the operations that took effect. */
  datatype State = State(version: nat, list: seq<string>, calls: map<CallId, Call>, commits: seq<Commit>)

  datatype Step =
    | Start(id: CallId, op: Op)
    | Get(id: CallId)
    | GetFails(id: CallId)
    | Patch(id: CallId, responseLost: bool)
    | GiveUp(id: CallId)            // the retries are used up, or the request never arrived
    | WriteOtherField               // any write that leaves the finalizers alone
    | WriteList(other: seq<string>) // another writer replaces the list

  function SetPhase(s: State, id: CallId, phase: Phase): State
    requires id in s.calls
  {
    s.(calls := s.calls[id := s.calls[id].(phase := phase)])
  }

  /** One step; a step that is not possible in a state leaves it unchanged. */
  function Do(s: State, step: Step): State {
    match step
    case Start(id, op) => if id in s.calls then s else s.(calls := s.calls[id := Call(op, Reading)])
    case Get(id) =>
      if id !in s.calls || !s.calls[id].phase.Reading? then s
      else if Apply(s.list, s.calls[id].op) == s.list then
        SetPhase(s, id, Returned(true)).(commits := s.commits + [ByCall(id, s.calls[id].op)])
      else SetPhase(s, id, Holding(s.version, s.list))
    case GetFails(id) =>
      if id !in s.calls || !s.calls[id].phase.Reading? then s else SetPhase(s, id, Returned(false))
    case Patch(id, responseLost) =>
      if id !in s.calls || !s.calls[id].phase.Holding? then s
      else if s.calls[id].phase.version != s.version then SetPhase(s, id, Reading)
      else
        var call := s.calls[id];
        SetPhase(s, id, Returned(!responseLost)).(
          version := s.version + 1,
          list := Apply(call.phase.list, call.op),
          commits := s.commits + [ByCall(id, call.op)])
    case GiveUp(id) =>
      if id !in s.calls || !s.calls[id].phase.Holding? then s else SetPhase(s, id, Returned(false))
    case WriteOtherField => s.(version := s.version + 1)
    case WriteList(other) => s.(version := s.version + 1, list := other, commits := s.commits + [ByOther(other)])
  }

  function Run(s: State, steps: seq<Step>): State {
    if steps == [] then s else Do(Run(s, steps[..|steps| - 1]), steps[|steps| - 1])
  }

  function Fold(list: seq<string>, commits: seq<Commit>): seq<string> {
    if commits == [] then list
    else Apply(Fold(list, commits[..|commits| - 1]), commits[|commits| - 1].Change())
  }

  function CommitsBy(commits: seq<Commit>, id: CallId): nat {
    if commits == [] then 0
    else CommitsBy(commits[..|commits| - 1], id)
         + if commits[|commits| - 1].ByCall? && commits[|commits| - 1].id == id then 1 else 0
  }

  /** A call that holds a copy of the current version holds the current list. */
  predicate CopiesCurrent(s: State) {
    forall id :: id in s.calls && s.calls[id].phase.Holding? ==>
      && s.calls[id].phase.version <= s.version
      && (s.calls[id].phase.version == s.version ==> s.calls[id].phase.list == s.list)
  }

  /** How often a call in this phase may have committed. */
  predicate CountFits(phase: Phase, commits: nat) {
    match phase
    case Returned(ok) => if ok then commits == 1 else commits <= 1
    case _ => commits == 0
  }

  ghost predicate CountsFit(s: State) {
    && (forall id :: id in s.calls ==> CountFits(s.calls[id].phase, CommitsBy(s.commits, id)))
    && (forall id :: id !in s.calls ==> CommitsBy(s.commits, id) == 0)
  }

  ghost predicate Invariant(initial: seq<string>, s: State) {
    s.list == Fold(initial, s.commits) && CopiesCurrent(s) && CountsFit(s)
  }

  lemma CommitsAfter(s: State, step: Step)
    ensures Do(s, step).commits == s.commits ||
            (Do(s, step).commits != [] && Do(s, step).commits[..|Do(s, step).commits| - 1] == s.commits)
  {
  }

  lemma StepKeepsFold(initial: seq<string>, s: State, step: Step)
    requires s.list == Fold(initial, s.commits) && CopiesCurrent(s)
    ensures Do(s, step).list == Fold(initial, Do(s, step).commits)
  {
    CommitsAfter(s, step);
  }

  lemma StepKeepsCopies(s: State, step: Step)
    requires CopiesCurrent(s)
    ensures CopiesCurrent(Do(s, step))
  {
  }

  lemma StepKeepsCounts(s: State, step: Step)
    requires CountsFit(s)
    ensures CountsFit(Do(s, step))
  {
    var t := Do(s, step);
    CommitsAfter(s, step);
    if t.commits != s.commits {
      var c := t.commits[|t.commits| - 1];
      forall id ensures CommitsBy(t.commits, id) == CommitsBy(s.commits, id) + if c.ByCall? && c.id == id then 1 else 0 {}
    }
  }

  lemma StepKeepsInvariant(initial: seq<string>, s: State, step: Step)
    requires Invariant(initial, s)
    ensures Invariant(initial, Do(s, step))
  {
    StepKeepsFold(initial, s, step);
    StepKeepsCopies(s, step);
    StepKeepsCounts(s, step);
  }

  /** No lost update: over every interleaving of concurrent calls and foreign writes, the stored
      list is the committed operations applied in commit order, and every call that reports
      success committed exactly once. */
  lemma {:induction false} NoLostUpdate(s: State, steps: seq<Step>)
    requires s.calls == map[] && s.commits == []
    ensures Invariant(s.list, Run(s, steps))
  {
    if steps != [] {
      NoLostUpdate(s, steps[..|steps| - 1]);
      StepKeepsInvariant(s.list, Run(s, steps[..|steps| - 1]), steps[|steps| - 1]);
    }
  }

  predicate Decides(op: Op, f: string) {
    match op
    case Add(names) => f in names
    case Remove(names) => f in names
    case Replace(_) => true
  }

  /** What the fold means for one finalizer: the last committed operation that speaks about it
      decides whether it is stored. */
  lemma {:induction false} LastCommitDecides(list: seq<string>, commits: seq<Commit>, k: nat, f: string)
    requires k < |commits| && Decides(commits[k].Change(), f)
    requires forall j :: k < j < |commits| ==> !Decides(commits[j].Change(), f)
    ensures f in Fold(list, commits) <==>
              match commits[k].Change() case Add(_) => true case Remove(_) => false case Replace(l) => f in l
    decreases |commits|
  {
    var before := commits[..|commits| - 1];
    var last := commits[|commits| - 1].Change();
    AddAllElements(Fold(list, before), if last.Add? then last.names else [], f);
    RemoveAllElements(Fold(list, before), if last.Remove? then last.names else [], f);
    if k < |commits| - 1 {
      LastCommitDecides(list, before, k, f);
    }
  }

  lemma AddPresent(list: seq<string>, f: string)
    requires f in list
    ensures Apply(list, Add([f])) == list
  {
    assert [f][1..] == [];
    assert AddAll(list, [f]) == AddAll(list, [f][1..]);
  }

  // ---------------------------------------------------------------- undisturbed calls

  lemma RunTwo(s: State, a: Step, b: Step)
    ensures Run(s, [a, b]) == Do(Do(s, a), b)
  {
    assert [a, b][..1] == [a] && [a][..0] == [];
    assert Run(s, [a]) == Do(s, a);
  }

  /** A call that nobody disturbs succeeds, and after it the stored list has all added and none of the
      removed finalizers, and every other one as before. */
  lemma UndisturbedCallTakesEffect(s: State, id: CallId, op: Op, f: string)
    requires id in s.calls && s.calls[id] == Call(op, Reading) && !op.Replace?
    ensures var t := Run(s, [Get(id), Patch(id, false)]);
            && id in t.calls && t.calls[id].phase == Returned(true) && t.commits == s.commits + [ByCall(id, op)]
            && (f in t.list <==> match op
                                 case Add(names) => f in s.list || f in names
                                 case Remove(names) => f in s.list && f !in names
                                 case Replace(_) => false)
  {
    RunTwo(s, Get(id), Patch(id, false));
    match op
    case Add(names) => AddAllElements(s.list, names, f);
    case Remove(names) => RemoveAllElements(s.list, names, f);
    case Replace(_) =>
  }
}
