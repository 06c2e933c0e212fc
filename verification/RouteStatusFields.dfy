/** What route statuses say, field by field: the key of a parent, the entry an update writes, and
    when two statuses count as the same. */
module RouteStatusFields {
  import opened Options
  import opened RouteStatus
  import opened RouteStatusEntries
  import Text

  // ---------------------------------------------------------------- keys

  lemma {:induction false} DigitsOnly(n: nat)
    ensures Text.Decimal(n) != "" && forall c :: c in Text.Decimal(n) ==> '0' <= c <= '9'
  {
    if n >= 10 {
      DigitsOnly(n / 10);
      DigitsOnly(n % 10);
    }
  }

  lemma OneDigit(n: nat)
    requires n < 10
    ensures Text.Decimal(n) == [('0' as int + n) as char]
  {
  }

  lemma {:induction false} DecimalInjective(m: nat, n: nat)
    requires Text.Decimal(m) == Text.Decimal(n)
    ensures m == n
    decreases m
  {
    if m < 10 {
      OneDigit(m);
      if n < 10 {
        OneDigit(n);
        assert ('0' as int + m) as char == ('0' as int + n) as char;
      } else {
        LastDigit(n);
        assert false;
      }
    } else {
      LastDigit(m);
      if n < 10 {
        OneDigit(n);
        assert false;
      } else {
        LastDigit(n);
        SameDigits(m % 10, n % 10);
        DecimalInjective(m / 10, n / 10);
        assert m == 10 * (m / 10) + m % 10 && n == 10 * (n / 10) + n % 10;
      }
    }
  }

  lemma SameDigits(a: nat, b: nat)
    requires a < 10 && b < 10 && ('0' as int + a) as char == ('0' as int + b) as char
    ensures a == b
  {
    assert (('0' as int + a) as char) as int == '0' as int + a;
    assert (('0' as int + b) as char) as int == '0' as int + b;
  }

  lemma LastDigit(n: nat)
    requires n >= 10
    ensures |Text.Decimal(n)| >= 2
    ensures Text.Decimal(n)[..|Text.Decimal(n)| - 1] == Text.Decimal(n / 10)
    ensures Text.Decimal(n)[|Text.Decimal(n)| - 1] == ('0' as int + n % 10) as char
  {
    DigitsOnly(n / 10);
    assert Text.Decimal(n % 10) == [('0' as int + n % 10) as char];
    assert Text.Decimal(n) == Text.Decimal(n / 10) + Text.Decimal(n % 10);
  }

  predicate SlashFree(ref: ParentRef) {
    && (ref.group.Some? ==> '/' !in ref.group.value) && (ref.kind.Some? ==> '/' !in ref.kind.value)
    && (ref.namespace.Some? ==> '/' !in ref.namespace.value) && '/' !in ref.name
    && (ref.sectionName.Some? ==> '/' !in ref.sectionName.value) && (ref.port.Some? ==> ref.port.value >= 0)
  }

  /** Absent counts as empty. */
  predicate SameText(a: Option<string>, b: Option<string>) {
    a == b || (a == None && b == Some("")) || (a == Some("") && b == None)
  }

  lemma SamePort(a: Option<int>, b: Option<int>)
    requires (a.Some? ==> a.value >= 0) && (b.Some? ==> b.value >= 0)
    ensures (if a.Some? then Text.Decimal(a.value) else "") == (if b.Some? then Text.Decimal(b.value) else "") <==> a == b
  {
    if a.Some? {
      DigitsOnly(a.value);
    }
    if b.Some? {
      DigitsOnly(b.value);
    }
    if a.Some? && b.Some? && Text.Decimal(a.value) == Text.Decimal(b.value) {
      DecimalInjective(a.value, b.value);
    }
  }

  /** Two references have the same key iff all their fields agree, where an absent text counts as empty
      and an absent namespace as that of the route. */
  lemma SameKeyExactlyWhen(a: ParentRef, b: ParentRef, routeNamespace: string)
    requires SlashFree(a) && SlashFree(b) && '/' !in routeNamespace
    ensures ParentKey(a, routeNamespace) == ParentKey(b, routeNamespace) <==> FieldsAgree(a, b, routeNamespace)
  {
    SlashFreeComponents(a, routeNamespace);
    SlashFreeComponents(b, routeNamespace);
    SlashFreeConcat(Components(a, routeNamespace), Components(b, routeNamespace));
    KeyNamesParent(a, b, routeNamespace);
    ComponentsAgree(a, b, routeNamespace);
  }

  lemma SlashFreeConcat(x: seq<string>, y: seq<string>)
    requires (forall s :: s in x ==> '/' !in s) && forall s :: s in y ==> '/' !in s
    ensures forall s :: s in x + y ==> '/' !in s
  {
  }

  ghost predicate FieldsAgree(a: ParentRef, b: ParentRef, routeNamespace: string) {
    && SameText(a.group, b.group) && SameText(a.kind, b.kind) && a.name == b.name
    && SameText(a.sectionName, b.sectionName) && a.port == b.port
    && (if a.namespace.Some? then a.namespace.value else routeNamespace)
       == (if b.namespace.Some? then b.namespace.value else routeNamespace)
  }

  lemma ComponentsAgree(a: ParentRef, b: ParentRef, routeNamespace: string)
    requires (a.port.Some? ==> a.port.value >= 0) && (b.port.Some? ==> b.port.value >= 0)
    ensures Components(a, routeNamespace) == Components(b, routeNamespace) <==> FieldsAgree(a, b, routeNamespace)
  {
    SamePort(a.port, b.port);
    SixEqual(Components(a, routeNamespace), Components(b, routeNamespace));
  }

  lemma SlashFreeComponents(a: ParentRef, routeNamespace: string)
    requires SlashFree(a) && '/' !in routeNamespace
    ensures forall s :: s in Components(a, routeNamespace) ==> '/' !in s
  {
    if a.port.Some? {
      Text.DecimalSlashFree(a.port.value);
    }
  }

  lemma SixEqual(x: seq<string>, y: seq<string>)
    requires |x| == |y| == 6
    ensures x == y <==> x[0] == y[0] && x[1] == y[1] && x[2] == y[2] && x[3] == y[3] && x[4] == y[4] && x[5] == y[5]
  {
  }

  // ---------------------------------------------------------------- what an update writes

  /** There is one condition of the type, with this status; a false one gives reason and message. */
  ghost predicate Says(conditions: seq<Condition>, conditionType: string, status: bool, reason: string, message: string) {
    && (exists c :: c in conditions && c.conditionType == conditionType)
    && forall c :: c in conditions && c.conditionType == conditionType ==>
         c.status == status && (!status ==> c.reason == reason && c.message == message)
  }

  /** The entry tells the update, for a parent that can be resolved or not. */
  ghost predicate Tells(p: ParentStatus, u: Update, generation: int) {
    && p.controllerName == u.controllerName && |p.conditions| == 2
    && (forall c :: c in p.conditions ==> c.observedGeneration == generation && c.lastTransitionTime == u.now)
    && match u.lookup(p.parentRef)
       case None =>
         && Says(p.conditions, "Accepted", u.info.accepted, u.info.reason, u.info.message)
         && Says(p.conditions, "ResolvedRefs", u.info.resolvedRefs, u.info.reason, u.info.message)
       case Some(message) =>
         && Says(p.conditions, "Accepted", false, "ParentRefDoesNotExist", message)
         && Says(p.conditions, "ResolvedRefs", true, "", "")
  }

  lemma TypesDiffer()
    ensures "Accepted" != "ResolvedRefs"
  {
    assert "Accepted"[0] != "ResolvedRefs"[0];
  }

  lemma FreshTells(u: Update, ref: ParentRef, generation: int)
    ensures Tells(ParentStatus(ref, u.controllerName, FreshConditions(u, ref, generation)), u, generation)
  {
    var cs := FreshConditions(u, ref, generation);
    TypesDiffer();
    assert cs[0] in cs && cs[1] in cs;
    assert forall c :: c in cs <==> c == cs[0] || c == cs[1];
  }

  /** Under the key there is nothing stored, or something not newer than the update. */
  ghost predicate NotNewer(route: Route, u: Update) {
    forall p :: p in route.parents && KeyOf(p, route.namespace) == u.Target() && p.conditions != [] ==>
      p.conditions[0].observedGeneration <= u.routeGeneration
  }

  /** After an update that finds nothing newer, every reference with its key has an entry, and every
      entry under its key tells the update. */
  lemma UpdateTells(route: Route, u: Update)
    requires NotNewer(route, u)
    ensures forall p :: p in Updated(route, u).parents && KeyOf(p, route.namespace) == u.Target() ==>
              p.parentRef in route.parentRefs && Tells(p, u, route.generation)
    ensures forall ref :: ref in route.parentRefs && ParentKey(ref, route.namespace) == u.Target() ==>
              exists p :: p in Updated(route, u).parents && p.parentRef == ref
  {
    var m := StatusMap(route.parents, route.namespace);
    MapIsKeyed(route.parents, route.namespace);
    StatusMapKeys(route.parents, route.namespace, u.Target());
    forall p | p in Updated(route, u).parents && KeyOf(p, route.namespace) == u.Target()
      ensures p.parentRef in route.parentRefs && Tells(p, u, route.generation)
    {
      EntriesContain(route, m, u, route.parentRefs, p);
      var ref :| ref in route.parentRefs && p in Entry(route, m, u, ref);
      EntryKey(route, m, u, ref);
      FreshTells(u, ref, route.generation);
    }
    forall ref | ref in route.parentRefs && ParentKey(ref, route.namespace) == u.Target()
      ensures exists p :: p in Updated(route, u).parents && p.parentRef == ref
    {
      var p := TargetEntriesAreEach(route, m, u, route.parentRefs, ref);
    }
  }

  lemma OneEntry(route: Route, m: map<string, ParentStatus>, u: Update, ref: ParentRef)
    ensures Entries(route, m, u, [ref]) == Entry(route, m, u, ref)
  {
    assert [ref][..0] == [];
    assert Entries(route, m, u, []) == [];
  }

  /** For instance a rejection is stored as a rejection. */
  lemma RejectionIsStored()
    ensures var after := Updated(Route("ns", 1, [GATEWAY_REF], []), Rejection(1, "bad"));
            |after.parents| == 1 && Says(after.parents[0].conditions, "Accepted", false, "Invalid", "bad")
  {
    var route, u := Route("ns", 1, [GATEWAY_REF], []), Rejection(1, "bad");
    var after := Updated(route, u);
    OneEntry(route, StatusMap(route.parents, "ns"), u, GATEWAY_REF);
    assert after.parents[0] in after.parents && after.parents[0].parentRef == GATEWAY_REF;
    assert Components(GATEWAY_REF, "ns") == Components(u.parentRef, u.routeNamespace);
    UpdateTells(route, u);
  }

  // ---------------------------------------------------------------- when statuses count as the same

  predicate DistinctTypes(cs: seq<Condition>) {
    forall i, j :: 0 <= i < j < |cs| ==> cs[i].conditionType != cs[j].conditionType
  }

  /** Everything but the transition time agrees. */
  predicate Agree(a: Condition, b: Condition) {
    && a.conditionType == b.conditionType && a.status == b.status && a.reason == b.reason
    && a.message == b.message && a.observedGeneration == b.observedGeneration
  }

  /** Of conditions with distinct types, two lists are equal iff they are as long and each condition of
      the new one agrees with one of the old one. */
  lemma ConditionsEqualExactlyWhen(old0: seq<Condition>, new0: seq<Condition>)
    requires DistinctTypes(old0)
    ensures ConditionsEqual(old0, new0) <==> |old0| == |new0| && forall c :: c in new0 ==> exists o :: o in old0 && Agree(o, c)
  {
    var m := ConditionMap(old0);
    forall o | o in old0 ensures o.conditionType in m && m[o.conditionType] == o {
      ConditionMapElements(old0, o);
      var i :| 0 <= i < |old0| && old0[i] == o;
      var j :| 0 <= j < |old0| && old0[j] == m[o.conditionType];
    }
    forall t | t in m ensures m[t] in old0 && m[t].conditionType == t {
      ConditionMapKeys(old0, t);
    }
  }

  lemma {:induction false} ConditionMapKeys(cs: seq<Condition>, t: string)
    requires t in ConditionMap(cs)
    ensures ConditionMap(cs)[t] in cs && ConditionMap(cs)[t].conditionType == t
  {
    var front, last := cs[..|cs| - 1], cs[|cs| - 1];
    assert cs == front + [last];
    if last.conditionType != t {
      ConditionMapKeys(front, t);
    }
  }

  lemma EntryUnderKey(parents: seq<ParentStatus>, namespace: string, p: ParentStatus)
    requires DistinctKeys(parents, namespace) && p in parents
    ensures KeyOf(p, namespace) in StatusMap(parents, namespace) && StatusMap(parents, namespace)[KeyOf(p, namespace)] == p
  {
    StatusMapKeys(parents, namespace, KeyOf(p, namespace));
    var i :| 0 <= i < |parents| && parents[i] == p;
    var j :| 0 <= j < |parents| && parents[j] == StatusMap(parents, namespace)[KeyOf(p, namespace)];
  }

  /** With distinct keys, statuses are judged identical iff they have as many entries and each old one
      has a new one with its key, its controller and equal conditions. */
  lemma IdenticalExactlyWhen(old0: seq<ParentStatus>, new0: seq<ParentStatus>, namespace: string)
    requires DistinctKeys(old0, namespace) && DistinctKeys(new0, namespace)
    ensures Identical(old0, new0, namespace) <==>
              && |old0| == |new0|
              && forall p :: p in old0 ==> exists r :: r in new0 && KeyOf(r, namespace) == KeyOf(p, namespace)
                                                      && r.controllerName == p.controllerName && ConditionsEqual(p.conditions, r.conditions)
  {
    var a, b := StatusMap(old0, namespace), StatusMap(new0, namespace);
    forall p | p in old0 ensures KeyOf(p, namespace) in a && a[KeyOf(p, namespace)] == p {
      EntryUnderKey(old0, namespace, p);
    }
    forall r | r in new0 ensures KeyOf(r, namespace) in b && b[KeyOf(r, namespace)] == r {
      EntryUnderKey(new0, namespace, r);
    }
    forall key ensures key in a ==> a[key] in old0 && KeyOf(a[key], namespace) == key {
      StatusMapKeys(old0, namespace, key);
    }
    forall key ensures key in b ==> b[key] in new0 && KeyOf(b[key], namespace) == key {
      StatusMapKeys(new0, namespace, key);
    }
  }

  /** An update older than what is stored under its key keeps the stored conditions. */
  lemma NewerIsKept(route: Route, u: Update, ref: ParentRef)
    requires LastWithKey(route.parentRefs, route.namespace, u.Target()) == Some(ref) && !Overwrites(route, u)
    ensures Shown(Updated(route, u), u.Target()) == Shown(route, u.Target())
  {
    TargetEntry(route, u, ref);
  }
}
