/** Merging per-parent status into the shared status of a Gateway API route. */
module RouteStatus {
  import opened Options
  import Text

  datatype ParentRef = ParentRef(
    group: Option<string>, kind: Option<string>, namespace: Option<string>,
    name: string, sectionName: Option<string>, port: Option<int>)

  datatype Condition = Condition(
    conditionType: string, status: bool, reason: string, message: string, observedGeneration: int, lastTransitionTime: int)

  datatype ParentStatus = ParentStatus(parentRef: ParentRef, controllerName: string, conditions: seq<Condition>)

  datatype Route = Route(namespace: string, generation: int, parentRefs: seq<ParentRef>, parents: seq<ParentStatus>)

  datatype StatusInfo = StatusInfo(accepted: bool, resolvedRefs: bool, reason: string, message: string)

  /** One queued status update. The time of processing and the outcome of looking up the parent
      (an error message if it cannot be resolved) come with it. */
  datatype Update = Update(
    parentRef: ParentRef, routeNamespace: string, routeGeneration: int, info: StatusInfo,
    controllerName: string, now: int, lookup: ParentRef -> Option<string>)
  {
    function Target(): string {
      ParentKey(parentRef, routeNamespace)
    }
  }

  function OrEmpty(s: Option<string>): string {
    if s.Some? then s.value else ""
  }

  function Components(ref: ParentRef, routeNamespace: string): seq<string> {
    [OrEmpty(ref.group), OrEmpty(ref.kind), if ref.namespace.Some? then ref.namespace.value else routeNamespace,
     ref.name, OrEmpty(ref.sectionName), if ref.port.Some? then Text.Decimal(ref.port.value) else ""]
  }

  function ParentKey(ref: ParentRef, routeNamespace: string): string {
    Text.Join(Components(ref, routeNamespace), '/')
  }

  /** Slash-free references have the same key exactly when they name the same parent: absent fields
      count as empty, an absent namespace as that of the route. */
  lemma KeyNamesParent(a: ParentRef, b: ParentRef, routeNamespace: string)
    requires forall s :: s in Components(a, routeNamespace) + Components(b, routeNamespace) ==> '/' !in s
    ensures ParentKey(a, routeNamespace) == ParentKey(b, routeNamespace) <==> Components(a, routeNamespace) == Components(b, routeNamespace)
  {
    Text.SplitJoin(Components(a, routeNamespace), '/');
    Text.SplitJoin(Components(b, routeNamespace), '/');
  }

  // ---------------------------------------------------------------- updating

  function StatusMap(parents: seq<ParentStatus>, namespace: string): map<string, ParentStatus> {
    if parents == [] then map[]
    else
      var last := parents[|parents| - 1];
      StatusMap(parents[..|parents| - 1], namespace)[ParentKey(last.parentRef, namespace) := last]
  }

  /** Conditions from the status information. */
  function InfoConditions(u: Update, generation: int): seq<Condition> {
    [ if u.info.resolvedRefs then Condition("ResolvedRefs", true, "ResolvedRefs", "", generation, u.now)
      else Condition("ResolvedRefs", false, u.info.reason, u.info.message, generation, u.now),
      if u.info.accepted then Condition("Accepted", true, "Accepted", "", generation, u.now)
      else Condition("Accepted", false, u.info.reason, u.info.message, generation, u.now) ]
  }

  /** Conditions for a parent that cannot be resolved. */
  function UnresolvedConditions(u: Update, message: string, generation: int): seq<Condition> {
    [ Condition("Accepted", false, "ParentRefDoesNotExist", message, generation, u.now),
      Condition("ResolvedRefs", true, "ResolvedRefs", "", generation, u.now) ]
  }

  function FreshConditions(u: Update, ref: ParentRef, generation: int): seq<Condition> {
    match u.lookup(ref)
    case None => InfoConditions(u, generation)
    case Some(message) => UnresolvedConditions(u, message, generation)
  }

  /** Existing conditions are overwritten unless they belong to a newer generation than the update. */
  function NewConditions(u: Update, ref: ParentRef, generation: int, existing: seq<Condition>): seq<Condition> {
    if existing != [] && existing[0].observedGeneration > u.routeGeneration then existing
    else FreshConditions(u, ref, generation)
  }

  function Entry(route: Route, m: map<string, ParentStatus>, u: Update, ref: ParentRef): seq<ParentStatus> {
    var key := ParentKey(ref, route.namespace);
    if key != u.Target() then if key in m then [m[key]] else []
    else [ParentStatus(ref, u.controllerName, NewConditions(u, ref, route.generation, if key in m then m[key].conditions else []))]
  }

  function Entries(route: Route, m: map<string, ParentStatus>, u: Update, refs: seq<ParentRef>): seq<ParentStatus> {
    if refs == [] then []
    else Entries(route, m, u, refs[..|refs| - 1]) + Entry(route, m, u, refs[|refs| - 1])
  }

  function Updated(route: Route, u: Update): Route {
    route.(parents := Entries(route, StatusMap(route.parents, route.namespace), u, route.parentRefs))
  }

  method BuildStatusMap(parents: seq<ParentStatus>, namespace: string) returns (m: map<string, ParentStatus>)
    ensures m == StatusMap(parents, namespace)
  {
    m := map[];
    for i := 0 to |parents|
      invariant m == StatusMap(parents[..i], namespace)
    {
      assert parents[..i + 1][..i] == parents[..i];
      m := m[ParentKey(parents[i].parentRef, namespace) := parents[i]];
    }
    assert parents[..|parents|] == parents;
  }

  method UpdateRouteStatus(route: Route, u: Update) returns (result: Route)
    ensures result == Updated(route, u)
  {
    var originalStatusMap := BuildStatusMap(route.parents, route.namespace);
    var refs := route.parentRefs;
    var newRouteStatus: seq<ParentStatus> := [];
    for i := 0 to |refs|
      invariant newRouteStatus == Entries(route, originalStatusMap, u, refs[..i])
    {
      assert refs[..i + 1][..i] == refs[..i];
      assert Entries(route, originalStatusMap, u, refs[..i + 1]) == newRouteStatus + Entry(route, originalStatusMap, u, refs[i]);
      var key := ParentKey(refs[i], route.namespace);
      if key != u.Target() {
        if key in originalStatusMap {
          newRouteStatus := newRouteStatus + [originalStatusMap[key]];
        }
        continue;
      }
      var conditions := [];
      if key in originalStatusMap {
        conditions := originalStatusMap[key].conditions;
      }
      if |conditions| == 0 || conditions[0].observedGeneration <= u.routeGeneration {
        conditions := InfoConditions(u, route.generation);
        var missing := u.lookup(refs[i]);
        if missing.Some? {
          conditions := UnresolvedConditions(u, missing.value, route.generation);
        }
      }
      newRouteStatus := newRouteStatus + [ParentStatus(refs[i], u.controllerName, conditions)];
    }
    assert refs[..|refs|] == refs;
    result := route.(parents := newRouteStatus);
  }

  // ---------------------------------------------------------------- what an update leaves alone

  predicate Listed(refs: seq<ParentRef>, namespace: string, key: string) {
    exists ref :: ref in refs && ParentKey(ref, namespace) == key
  }

  lemma {:induction false} StatusMapKeys(parents: seq<ParentStatus>, namespace: string, key: string)
    ensures key in StatusMap(parents, namespace) ==>
              StatusMap(parents, namespace)[key] in parents && ParentKey(StatusMap(parents, namespace)[key].parentRef, namespace) == key
    ensures key !in StatusMap(parents, namespace) ==> forall p :: p in parents ==> ParentKey(p.parentRef, namespace) != key
  {
    if parents != [] {
      StatusMapKeys(parents[..|parents| - 1], namespace, key);
      assert parents == parents[..|parents| - 1] + [parents[|parents| - 1]];
    }
  }

  lemma {:induction false} StatusMapConcat(a: seq<ParentStatus>, p: ParentStatus, namespace: string)
    ensures StatusMap(a + [p], namespace) == StatusMap(a, namespace)[ParentKey(p.parentRef, namespace) := p]
  {
    assert (a + [p])[..|a|] == a;
  }

  /** Every entry of the map sits under the key of its own parent reference. */
  ghost predicate Keyed(m: map<string, ParentStatus>, namespace: string) {
    forall key :: key in m ==> ParentKey(m[key].parentRef, namespace) == key
  }

  /** The entry of a key in an updated status: keys not listed by the route are dropped, other
      keys than the target keep their entry. */
  ghost predicate EntryOf(route: Route, m: map<string, ParentStatus>, u: Update, refs: seq<ParentRef>, key: string, after: map<string, ParentStatus>) {
    && (key in after <==> Listed(refs, route.namespace, key) && (key == u.Target() || key in m))
    && (key in after && key != u.Target() ==> after[key] == m[key])
    && (key in after && key == u.Target() ==> FreshEntry(route, m, u, refs, key, after[key]))
  }

  ghost predicate FreshEntry(route: Route, m: map<string, ParentStatus>, u: Update, refs: seq<ParentRef>, key: string, p: ParentStatus) {
    p.parentRef in refs && ParentKey(p.parentRef, route.namespace) == key && Entry(route, m, u, p.parentRef) == [p]
  }

  lemma {:induction false} MapOfEntries(route: Route, m: map<string, ParentStatus>, u: Update, refs: seq<ParentRef>, key: string)
    requires Keyed(m, route.namespace)
    ensures EntryOf(route, m, u, refs, key, StatusMap(Entries(route, m, u, refs), route.namespace))
  {
    if refs != [] {
      MapOfEntries(route, m, u, refs[..|refs| - 1], key);
      MapAfterOne(route, m, u, refs);
      EntryOfStep(route, m, u, refs, key);
    }
  }

  /** The map after one more reference. */
  function Extended(route: Route, m: map<string, ParentStatus>, u: Update, ref: ParentRef, map0: map<string, ParentStatus>)
    : map<string, ParentStatus>
  {
    var e := Entry(route, m, u, ref);
    if e == [] then map0 else map0[ParentKey(ref, route.namespace) := e[0]]
  }

  lemma MapAfterOne(route: Route, m: map<string, ParentStatus>, u: Update, refs: seq<ParentRef>)
    requires Keyed(m, route.namespace) && refs != []
    ensures StatusMap(Entries(route, m, u, refs), route.namespace) ==
              Extended(route, m, u, refs[|refs| - 1], StatusMap(Entries(route, m, u, refs[..|refs| - 1]), route.namespace))
  {
    var before, e := Entries(route, m, u, refs[..|refs| - 1]), Entry(route, m, u, refs[|refs| - 1]);
    if e == [] {
      assert Entries(route, m, u, refs) == before;
    } else {
      assert Entries(route, m, u, refs) == before + [e[0]];
      StatusMapConcat(before, e[0], route.namespace);
    }
  }

  lemma ListedSnoc(refs: seq<ParentRef>, namespace: string, key: string)
    requires refs != []
    ensures Listed(refs, namespace, key) <==>
              Listed(refs[..|refs| - 1], namespace, key) || ParentKey(refs[|refs| - 1], namespace) == key
  {
    assert refs == refs[..|refs| - 1] + [refs[|refs| - 1]];
  }

  lemma EntryOfStep(route: Route, m: map<string, ParentStatus>, u: Update, refs: seq<ParentRef>, key: string)
    requires Keyed(m, route.namespace) && refs != []
    requires EntryOf(route, m, u, refs[..|refs| - 1], key, StatusMap(Entries(route, m, u, refs[..|refs| - 1]), route.namespace))
    ensures var map0 := StatusMap(Entries(route, m, u, refs[..|refs| - 1]), route.namespace);
            EntryOf(route, m, u, refs, key, Extended(route, m, u, refs[|refs| - 1], map0))
  {
    var before, ref := refs[..|refs| - 1], refs[|refs| - 1];
    var map0 := StatusMap(Entries(route, m, u, before), route.namespace);
    ListedSnoc(refs, route.namespace, key);
    var e := Entry(route, m, u, ref);
    if ParentKey(ref, route.namespace) == key {
      if key == u.Target() {
        assert FreshEntry(route, m, u, refs, key, e[0]);
      }
    } else if key in map0 && key == u.Target() {
      assert FreshEntry(route, m, u, before, key, map0[key]);
      assert FreshEntry(route, m, u, refs, key, map0[key]);
    }
  }

  lemma MapIsKeyed(parents: seq<ParentStatus>, namespace: string)
    ensures Keyed(StatusMap(parents, namespace), namespace)
  {
    forall key | key in StatusMap(parents, namespace) ensures ParentKey(StatusMap(parents, namespace)[key].parentRef, namespace) == key {
      StatusMapKeys(parents, namespace, key);
    }
  }

  /** An update leaves the entries of the other listed parents untouched. */
  lemma OtherParentsUntouched(route: Route, u: Update, key: string)
    requires key != u.Target() && Listed(route.parentRefs, route.namespace, key)
    ensures var before, after := StatusMap(route.parents, route.namespace), StatusMap(Updated(route, u).parents, route.namespace);
            (key in after <==> key in before) && (key in before ==> after[key] == before[key])
  {
    MapIsKeyed(route.parents, route.namespace);
    MapOfEntries(route, StatusMap(route.parents, route.namespace), u, route.parentRefs, key);
  }

  // ---------------------------------------------------------------- updates for different parents

  /** References with the same key are the same reference. */
  ghost predicate KeysIdentify(refs: seq<ParentRef>, namespace: string) {
    forall a, b :: a in refs && b in refs && ParentKey(a, namespace) == ParentKey(b, namespace) ==> a == b
  }

  /** Entries depend on the map only through the keys of the references. */
  lemma {:induction false} EntriesAgree(route: Route, m: map<string, ParentStatus>, n: map<string, ParentStatus>, u: Update, v: Update, refs: seq<ParentRef>)
    requires forall ref :: ref in refs ==> Entry(route, m, u, ref) == Entry(route, n, v, ref)
    ensures Entries(route, m, u, refs) == Entries(route, n, v, refs)
  {
    if refs != [] {
      EntriesAgree(route, m, n, u, v, refs[..|refs| - 1]);
    }
  }

  lemma EntryAfterOther(route: Route, u: Update, v: Update, ref: ParentRef)
    requires u.Target() != v.Target() && KeysIdentify(route.parentRefs, route.namespace) && ref in route.parentRefs
    ensures Entry(route, StatusMap(Updated(route, u).parents, route.namespace), v, ref) ==
              if ParentKey(ref, route.namespace) == u.Target() then Entry(route, StatusMap(route.parents, route.namespace), u, ref)
              else Entry(route, StatusMap(route.parents, route.namespace), v, ref)
  {
    var m := StatusMap(route.parents, route.namespace);
    MapIsKeyed(route.parents, route.namespace);
    MapOfEntries(route, m, u, route.parentRefs, ParentKey(ref, route.namespace));
  }

  /** Updates for different parents commute. */
  lemma UpdatesCommute(route: Route, u: Update, v: Update)
    requires u.Target() != v.Target() && KeysIdentify(route.parentRefs, route.namespace)
    ensures Updated(Updated(route, u), v) == Updated(Updated(route, v), u)
  {
    var mu := StatusMap(Updated(route, u).parents, route.namespace);
    var mv := StatusMap(Updated(route, v).parents, route.namespace);
    EntriesIgnoreParents(Updated(route, u), route, mu, v, route.parentRefs);
    EntriesIgnoreParents(Updated(route, v), route, mv, u, route.parentRefs);
    forall ref | ref in route.parentRefs ensures Entry(route, mu, v, ref) == Entry(route, mv, u, ref) {
      EntryAfterOther(route, u, v, ref);
      EntryAfterOther(route, v, u, ref);
    }
    EntriesAgree(route, mu, mv, v, u, route.parentRefs);
  }

  lemma {:induction false} EntriesIgnoreParents(a: Route, b: Route, m: map<string, ParentStatus>, u: Update, refs: seq<ParentRef>)
    requires a.namespace == b.namespace && a.generation == b.generation
    ensures Entries(a, m, u, refs) == Entries(b, m, u, refs)
  {
    if refs != [] {
      EntriesIgnoreParents(a, b, m, u, refs[..|refs| - 1]);
    }
  }

  // ---------------------------------------------------------------- observed generations

  /** Every entry of the key has observed at least the generation g. */
  ghost predicate ObservedAtLeast(route: Route, key: string, g: int) {
    forall p :: p in route.parents && ParentKey(p.parentRef, route.namespace) == key && p.conditions != [] ==>
      p.conditions[0].observedGeneration >= g
  }

  datatype Event = Edit(parentRefs: seq<ParentRef>, generationIncrease: nat) | Process(update: Update)

  function Step(route: Route, e: Event): Route {
    match e
    case Edit(refs, more) => route.(parentRefs := refs, generation := route.generation + more)
    case Process(u) => Updated(route, u)
  }

  function Run(route: Route, events: seq<Event>): Route {
    if events == [] then route else Step(Run(route, events[..|events| - 1]), events[|events| - 1])
  }

  lemma {:induction false} EntriesObserve(route: Route, m: map<string, ParentStatus>, u: Update, refs: seq<ParentRef>, key: string, g: int, p: ParentStatus)
    requires p in Entries(route, m, u, refs) && ParentKey(p.parentRef, route.namespace) == key && p.conditions != []
    requires Keyed(m, route.namespace) && g <= route.generation
    requires key in m && m[key].conditions != [] ==> m[key].conditions[0].observedGeneration >= g
    ensures p.conditions[0].observedGeneration >= g
  {
    var ref := refs[|refs| - 1];
    if p in Entry(route, m, u, ref) {
      var k := ParentKey(ref, route.namespace);
      assert k == key;
    } else {
      EntriesObserve(route, m, u, refs[..|refs| - 1], key, g, p);
    }
  }

  /** Over any run of edits that do not lower the route's generation and updates, stale or not, a
      parent's observed generation never goes below what it once was. */
  lemma {:induction false} ObservedGenerationNeverDrops(route: Route, events: seq<Event>, key: string, g: int)
    requires g <= route.generation && ObservedAtLeast(route, key, g)
    ensures var later := Run(route, events);
            later.generation >= route.generation && later.namespace == route.namespace && ObservedAtLeast(later, key, g)
  {
    if events != [] {
      ObservedGenerationNeverDrops(route, events[..|events| - 1], key, g);
      var mid, e := Run(route, events[..|events| - 1]), events[|events| - 1];
      if e.Process? {
        var m := StatusMap(mid.parents, mid.namespace);
        MapIsKeyed(mid.parents, mid.namespace);
        StatusMapKeys(mid.parents, mid.namespace, key);
        forall p | p in Updated(mid, e.update).parents && ParentKey(p.parentRef, mid.namespace) == key && p.conditions != []
          ensures p.conditions[0].observedGeneration >= g
        {
          EntriesObserve(mid, m, e.update, mid.parentRefs, key, g, p);
        }
      }
    }
  }

  // ---------------------------------------------------------------- when updates commute

  /** Updates for two different parents of a route commute, whatever its status is. */
  ghost predicate Commutes(namespace: string, generation: int, refs: seq<ParentRef>) {
    forall parents: seq<ParentStatus>, u: Update, v: Update :: u.Target() != v.Target() ==>
      CommuteOn(Route(namespace, generation, refs, parents), u, v)
  }

  ghost predicate CommuteOn(route: Route, u: Update, v: Update) {
    Updated(Updated(route, u), v) == Updated(Updated(route, v), u)
  }

  lemma {:induction false} EntriesContain(route: Route, m: map<string, ParentStatus>, u: Update, refs: seq<ParentRef>, p: ParentStatus)
    ensures p in Entries(route, m, u, refs) <==> exists ref :: ref in refs && p in Entry(route, m, u, ref)
  {
    if refs != [] {
      EntriesContain(route, m, u, refs[..|refs| - 1], p);
      assert refs == refs[..|refs| - 1] + [refs[|refs| - 1]];
    }
  }

  function PlainUpdate(ref: ParentRef, namespace: string): Update {
    Update(ref, namespace, 0, StatusInfo(true, true, "", ""), "controller", 0, (r: ParentRef) => None)
  }

  lemma {:induction false} JoinLength(parts: seq<string>, p: string)
    requires p in parts
    ensures |Text.Join(parts, '/')| >= |p|
    ensures |parts| > 1 ==> |Text.Join(parts, '/')| > |p|
  {
    if |parts| > 1 && p != parts[0] {
      JoinLength(parts[1..], p);
    }
  }

  lemma KeptEntriesAreOne(route: Route, m: map<string, ParentStatus>, v: Update, refs: seq<ParentRef>, p: ParentStatus)
    requires Keyed(m, route.namespace) && p in Entries(route, m, v, refs) && ParentKey(p.parentRef, route.namespace) != v.Target()
    ensures ParentKey(p.parentRef, route.namespace) in m && p == m[ParentKey(p.parentRef, route.namespace)]
  {
    EntriesContain(route, m, v, refs, p);
  }

  lemma TargetEntriesAreEach(route: Route, m: map<string, ParentStatus>, u: Update, refs: seq<ParentRef>, ref: ParentRef)
    returns (p: ParentStatus)
    requires ref in refs && ParentKey(ref, route.namespace) == u.Target()
    ensures p in Entries(route, m, u, refs) && p.parentRef == ref
  {
    p := Entry(route, m, u, ref)[0];
    EntriesContain(route, m, u, refs, p);
  }

  lemma OtherKeyExists(namespace: string, key: string) returns (ref: ParentRef)
    ensures ParentKey(ref, namespace) != key
  {
    ref := ParentRef(None, None, None, key, None, None);
    JoinLength(["", "", namespace, key, "", ""], key);
  }

  /** Two different references with one key: updating their parent first loses one of them, when
      another update follows. */
  lemma SameKeyBreaksCommuting(route: Route, a: ParentRef, b: ParentRef, u: Update, v: Update)
    requires a in route.parentRefs && b in route.parentRefs && a != b
    requires ParentKey(a, route.namespace) == ParentKey(b, route.namespace) == u.Target() != v.Target()
    ensures !CommuteOn(route, u, v)
  {
    var namespace, refs := route.namespace, route.parentRefs;
    var ru, rv := Updated(route, u), Updated(route, v);
    MapIsKeyed(ru.parents, namespace);
    var pa := TargetEntriesAreEach(rv, StatusMap(rv.parents, namespace), u, refs, a);
    var pb := TargetEntriesAreEach(rv, StatusMap(rv.parents, namespace), u, refs, b);
    assert !(pa in Updated(ru, v).parents && pb in Updated(ru, v).parents) by {
      if pa in Updated(ru, v).parents && pb in Updated(ru, v).parents {
        KeptEntriesAreOne(ru, StatusMap(ru.parents, namespace), v, refs, pa);
        KeptEntriesAreOne(ru, StatusMap(ru.parents, namespace), v, refs, pb);
      }
    }
    assert Updated(ru, v) != Updated(rv, u);
  }

  /** Updates for different parents of a route commute if and only if references with the same key
      are the same reference. */
  lemma CommutesExactlyWhenKeysIdentify(namespace: string, generation: int, refs: seq<ParentRef>)
    ensures Commutes(namespace, generation, refs) <==> KeysIdentify(refs, namespace)
  {
    if KeysIdentify(refs, namespace) {
      forall parents: seq<ParentStatus>, u: Update, v: Update | u.Target() != v.Target()
        ensures CommuteOn(Route(namespace, generation, refs, parents), u, v)
      {
        UpdatesCommute(Route(namespace, generation, refs, parents), u, v);
      }
    } else {
      var a, b :| a in refs && b in refs && ParentKey(a, namespace) == ParentKey(b, namespace) && a != b;
      var other := OtherKeyExists(namespace, ParentKey(a, namespace));
      SameKeyBreaksCommuting(Route(namespace, generation, refs, []), a, b, PlainUpdate(a, namespace), PlainUpdate(other, namespace));
    }
  }

  // ---------------------------------------------------------------- comparing statuses

  /** Equality of conditions up to the transition time. */
  predicate SameContent(a: Condition, b: Condition) {
    a.(lastTransitionTime := 0) == b.(lastTransitionTime := 0)
  }

  function ConditionMap(cs: seq<Condition>): map<string, Condition> {
    if cs == [] then map[]
    else ConditionMap(cs[..|cs| - 1])[cs[|cs| - 1].conditionType := cs[|cs| - 1]]
  }

  predicate ConditionsEqual(old0: seq<Condition>, new0: seq<Condition>) {
    |old0| == |new0| && forall c :: c in new0 ==> c.conditionType in ConditionMap(old0) && SameContent(ConditionMap(old0)[c.conditionType], c)
  }

  method AreConditionsEqual(oldConditions: seq<Condition>, newConditions: seq<Condition>) returns (equal: bool)
    ensures equal == ConditionsEqual(oldConditions, newConditions)
  {
    if |oldConditions| != |newConditions| {
      return false;
    }
    var oldConditionMap: map<string, Condition> := map[];
    for i := 0 to |oldConditions|
      invariant oldConditionMap == ConditionMap(oldConditions[..i])
    {
      assert oldConditions[..i + 1][..i] == oldConditions[..i];
      oldConditionMap := oldConditionMap[oldConditions[i].conditionType := oldConditions[i]];
    }
    assert oldConditions[..|oldConditions|] == oldConditions;
    for i := 0 to |newConditions|
      invariant forall k :: 0 <= k < i ==>
        newConditions[k].conditionType in oldConditionMap && SameContent(oldConditionMap[newConditions[k].conditionType], newConditions[k])
    {
      var c := newConditions[i];
      if c.conditionType !in oldConditionMap {
        return false;
      }
      var o := oldConditionMap[c.conditionType];
      if o.conditionType != c.conditionType || o.status != c.status || o.reason != c.reason
         || o.message != c.message || o.observedGeneration != c.observedGeneration {
        return false;
      }
    }
    equal := true;
  }

  predicate Identical(old0: seq<ParentStatus>, new0: seq<ParentStatus>, namespace: string) {
    var a, b := StatusMap(old0, namespace), StatusMap(new0, namespace);
    && |old0| == |new0|
    && forall key :: key in a ==> key in b && a[key].controllerName == b[key].controllerName
                                  && ConditionsEqual(a[key].conditions, b[key].conditions)
  }

  method IsRouteStatusIdentical(oldParents: seq<ParentStatus>, newParents: seq<ParentStatus>, namespace: string) returns (identical: bool)
    ensures identical == Identical(oldParents, newParents, namespace)
  {
    if |oldParents| != |newParents| {
      return false;
    }
    var oldStatusMap := BuildStatusMap(oldParents, namespace);
    var newStatusMap := BuildStatusMap(newParents, namespace);
    var remaining := oldStatusMap.Keys;
    while remaining != {}
      invariant remaining <= oldStatusMap.Keys
      invariant forall key :: key in oldStatusMap && key !in remaining ==>
        key in newStatusMap && oldStatusMap[key].controllerName == newStatusMap[key].controllerName
        && ConditionsEqual(oldStatusMap[key].conditions, newStatusMap[key].conditions)
    {
      var key :| key in remaining;
      if key !in newStatusMap || oldStatusMap[key].controllerName != newStatusMap[key].controllerName {
        return false;
      }
      var equal := AreConditionsEqual(oldStatusMap[key].conditions, newStatusMap[key].conditions);
      if !equal {
        return false;
      }
      remaining := remaining - {key};
    }
    identical := true;
  }

  lemma {:induction false} ConditionMapElements(cs: seq<Condition>, c: Condition)
    requires c in cs
    ensures c.conditionType in ConditionMap(cs)
    ensures ConditionMap(cs)[c.conditionType] in cs && ConditionMap(cs)[c.conditionType].conditionType == c.conditionType
  {
    var last := cs[|cs| - 1];
    if last.conditionType != c.conditionType {
      assert cs == cs[..|cs| - 1] + [last];
      ConditionMapElements(cs[..|cs| - 1], c);
    }
  }

  /** Conditions of one type have the same content: what the API server ensures by keying the list
      by type. */
  predicate Consistent(cs: seq<Condition>) {
    forall a, b :: a in cs && b in cs && a.conditionType == b.conditionType ==> SameContent(a, b)
  }

  /** A list equals itself exactly when it is consistent. */
  lemma EqualToItself(cs: seq<Condition>)
    ensures ConditionsEqual(cs, cs) <==> Consistent(cs)
  {
    forall c | c in cs
      ensures c.conditionType in ConditionMap(cs) && ConditionMap(cs)[c.conditionType] in cs
              && ConditionMap(cs)[c.conditionType].conditionType == c.conditionType
    {
      ConditionMapElements(cs, c);
    }
  }

  /** Two lists with the same content, position by position, are equal when consistent. */
  lemma SameContentIsEqual(a: seq<Condition>, b: seq<Condition>)
    requires |a| == |b| == 2 && a[0].conditionType != a[1].conditionType
    requires SameContent(a[0], b[0]) && SameContent(a[1], b[1])
    ensures ConditionsEqual(a, b)
  {
    assert a[..1] == [a[0]] && a[..1][..0] == [];
    assert ConditionMap(a[..1]) == map[a[0].conditionType := a[0]];
  }

  /** Nothing but the time of processing differs. */
  ghost predicate SameData(u: Update, v: Update) {
    && u.parentRef == v.parentRef && u.routeNamespace == v.routeNamespace && u.routeGeneration == v.routeGeneration
    && u.info == v.info && u.controllerName == v.controllerName && forall ref :: u.lookup(ref) == v.lookup(ref)
  }

  lemma {:induction false} EntriesLength(route: Route, m: map<string, ParentStatus>, n: map<string, ParentStatus>, u: Update, v: Update, refs: seq<ParentRef>)
    requires u.Target() == v.Target()
    requires forall ref :: ref in refs && ParentKey(ref, route.namespace) != u.Target() ==>
               (ParentKey(ref, route.namespace) in m <==> ParentKey(ref, route.namespace) in n)
    ensures |Entries(route, m, u, refs)| == |Entries(route, n, v, refs)|
  {
    if refs != [] {
      EntriesLength(route, m, n, u, v, refs[..|refs| - 1]);
    }
  }

  lemma ReprocessedConditions(route: Route, u: Update, v: Update, ref: ParentRef, existing: seq<Condition>)
    requires SameData(u, v) && Consistent(existing)
    ensures var first := NewConditions(u, ref, route.generation, existing);
            ConditionsEqual(first, NewConditions(v, ref, route.generation, first))
  {
    var first := NewConditions(u, ref, route.generation, existing);
    var second := NewConditions(v, ref, route.generation, first);
    EqualToItself(first);
    if second != first {
      SameContentIsEqual(first, second);
    }
  }

  /** Processing the same data again is judged identical, so it triggers no patch. */
  lemma ReprocessingIsIdentical(route: Route, u: Update, v: Update)
    requires SameData(u, v) && forall p :: p in route.parents ==> Consistent(p.conditions)
    ensures var once := Updated(route, u); Identical(once.parents, Updated(once, v).parents, route.namespace)
  {
    var once := Updated(route, u);
    var twice := Updated(once, v);
    var m, a, b := StatusMap(route.parents, route.namespace), StatusMap(once.parents, route.namespace), StatusMap(twice.parents, route.namespace);
    MapIsKeyed(route.parents, route.namespace);
    MapIsKeyed(once.parents, route.namespace);
    EntriesIgnoreParents(once, route, a, v, route.parentRefs);
    forall ref | ref in route.parentRefs && ParentKey(ref, route.namespace) != u.Target()
      ensures ParentKey(ref, route.namespace) in m <==> ParentKey(ref, route.namespace) in a
    {
      MapOfEntries(route, m, u, route.parentRefs, ParentKey(ref, route.namespace));
    }
    EntriesLength(route, m, a, u, v, route.parentRefs);
    forall key | key in a
      ensures key in b && a[key].controllerName == b[key].controllerName && ConditionsEqual(a[key].conditions, b[key].conditions)
    {
      ReprocessedEntry(route, u, v, key);
    }
  }

  function LastWithKey(refs: seq<ParentRef>, namespace: string, key: string): Option<ParentRef> {
    if refs == [] then None
    else if ParentKey(refs[|refs| - 1], namespace) == key then Some(refs[|refs| - 1])
    else LastWithKey(refs[..|refs| - 1], namespace, key)
  }

  lemma ExtendedTarget(route: Route, m: map<string, ParentStatus>, u: Update, ref: ParentRef, map0: map<string, ParentStatus>)
    ensures var after := Extended(route, m, u, ref, map0);
            if ParentKey(ref, route.namespace) == u.Target() then u.Target() in after && after[u.Target()].parentRef == ref
            else (u.Target() in after <==> u.Target() in map0) && (u.Target() in map0 ==> after[u.Target()] == map0[u.Target()])
  {
  }

  lemma {:induction false} TargetEntryIsLast(route: Route, m: map<string, ParentStatus>, u: Update, refs: seq<ParentRef>)
    requires Keyed(m, route.namespace)
    ensures var a := StatusMap(Entries(route, m, u, refs), route.namespace);
            if u.Target() in a then LastWithKey(refs, route.namespace, u.Target()) == Some(a[u.Target()].parentRef)
            else LastWithKey(refs, route.namespace, u.Target()) == None
  {
    if refs != [] {
      TargetEntryIsLast(route, m, u, refs[..|refs| - 1]);
      MapAfterOne(route, m, u, refs);
      ExtendedTarget(route, m, u, refs[|refs| - 1], StatusMap(Entries(route, m, u, refs[..|refs| - 1]), route.namespace));
    }
  }

  lemma ReprocessedEntry(route: Route, u: Update, v: Update, key: string)
    requires SameData(u, v) && forall p :: p in route.parents ==> Consistent(p.conditions)
    requires key in StatusMap(Updated(route, u).parents, route.namespace)
    ensures var a := StatusMap(Updated(route, u).parents, route.namespace);
            var b := StatusMap(Updated(Updated(route, u), v).parents, route.namespace);
            key in b && a[key].controllerName == b[key].controllerName && ConditionsEqual(a[key].conditions, b[key].conditions)
  {
    var once := Updated(route, u);
    var m, a := StatusMap(route.parents, route.namespace), StatusMap(once.parents, route.namespace);
    var b := StatusMap(Updated(once, v).parents, route.namespace);
    MapIsKeyed(route.parents, route.namespace);
    MapIsKeyed(once.parents, route.namespace);
    EntriesIgnoreParents(once, route, a, v, route.parentRefs);
    MapOfEntries(route, m, u, route.parentRefs, key);
    MapOfEntries(route, a, v, route.parentRefs, key);
    StatusMapKeys(route.parents, route.namespace, key);
    if key != u.Target() {
      EqualToItself(a[key].conditions);
    } else {
      TargetEntryIsLast(route, m, u, route.parentRefs);
      TargetEntryIsLast(route, a, v, route.parentRefs);
      var existing := if key in m then m[key].conditions else [];
      ReprocessedConditions(route, u, v, a[key].parentRef, existing);
      assert Entry(route, m, u, a[key].parentRef) == [a[key]];
      assert Entry(route, a, v, b[key].parentRef) == [b[key]];
    }
  }

  // ---------------------------------------------------------------- updates for the same parent

  /** The update overwrites the conditions it finds under its key. */
  predicate Overwrites(route: Route, u: Update) {
    var m := StatusMap(route.parents, route.namespace);
    u.Target() !in m || m[u.Target()].conditions == [] || m[u.Target()].conditions[0].observedGeneration <= u.routeGeneration
  }

  /** The conditions the status shows for a key. */
  function Shown(route: Route, key: string): Option<seq<Condition>> {
    var m := StatusMap(route.parents, route.namespace);
    if key in m then Some(m[key].conditions) else None
  }

  /** The entry of the target after an update: that of the last reference with the key. */
  lemma TargetEntry(route: Route, u: Update, ref: ParentRef)
    requires LastWithKey(route.parentRefs, route.namespace, u.Target()) == Some(ref)
    ensures ParentKey(ref, route.namespace) == u.Target()
    ensures var m := StatusMap(route.parents, route.namespace);
            var existing := if u.Target() in m then m[u.Target()].conditions else [];
            Shown(Updated(route, u), u.Target()) == Some(NewConditions(u, ref, route.generation, existing))
  {
    var m := StatusMap(route.parents, route.namespace);
    MapIsKeyed(route.parents, route.namespace);
    TargetEntryIsLast(route, m, u, route.parentRefs);
    MapOfEntries(route, m, u, route.parentRefs, u.Target());
  }

  /** Conditions are stamped with the generation of the route as read, but compared with the
      generation of the update. So right after an update has been written, the next one for the same
      parent is written iff its own generation is at least that of the route; else it is discarded,
      even if it is newer than the one written. */
  lemma NextUpdateWrittenExactlyWhen(route: Route, u: Update, v: Update, ref: ParentRef)
    requires u.Target() == v.Target() && LastWithKey(route.parentRefs, route.namespace, u.Target()) == Some(ref)
    requires Overwrites(route, u)
    ensures Overwrites(Updated(route, u), v) <==> v.routeGeneration >= route.generation
    ensures Shown(Updated(Updated(route, u), v), v.Target()) ==
              Some(FreshConditions(if v.routeGeneration >= route.generation then v else u, ref, route.generation))
  {
    TargetEntry(route, u, ref);
    TargetEntry(Updated(route, u), v, ref);
  }

  const GATEWAY_REF := ParentRef(None, None, None, "gw", None, None)

  function Rejection(routeGeneration: int, message: string): Update {
    Update(GATEWAY_REF, "ns", routeGeneration, StatusInfo(false, true, "Invalid", message), "controller", 0, (r: ParentRef) => None)
  }

  /** A newer update lost to an older one: the route is at generation 3, the update of generation 1 is
      processed first, and the one of generation 2 is discarded. */
  lemma OlderUpdateBlocksNewer()
    ensures var route := Route("ns", 3, [GATEWAY_REF], []);
            var older, newer := Rejection(1, "older"), Rejection(2, "newer");
            && older.routeGeneration < newer.routeGeneration
            && Shown(Updated(route, older), older.Target()) == Some(FreshConditions(older, GATEWAY_REF, 3))
            && Shown(Updated(Updated(route, older), newer), older.Target()) == Some(FreshConditions(older, GATEWAY_REF, 3))
            && FreshConditions(older, GATEWAY_REF, 3) != FreshConditions(newer, GATEWAY_REF, 3)
  {
    var route := Route("ns", 3, [GATEWAY_REF], []);
    var older, newer := Rejection(1, "older"), Rejection(2, "newer");
    assert LastWithKey(route.parentRefs, "ns", older.Target()) == Some(GATEWAY_REF);
    TargetEntry(route, older, GATEWAY_REF);
    NextUpdateWrittenExactlyWhen(route, older, newer, GATEWAY_REF);
    assert older.info.message[0] == 'o' && newer.info.message[0] == 'n';
    assert FreshConditions(older, GATEWAY_REF, 3)[1].message == "older";
    assert FreshConditions(newer, GATEWAY_REF, 3)[1].message == "newer";
  }
}
