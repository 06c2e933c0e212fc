/** Route statuses that hold several entries under one key. Two controllers may report on the same
    parent, and references that differ only in how they spell the namespace share a key. An update
    and the comparison that decides about the patch read the status through a map by key, in which
    the last entry wins. */
module RouteStatusEntries {
  import opened Options
  import opened RouteStatus
  import Text

  function KeyOf(p: ParentStatus, namespace: string): string {
    ParentKey(p.parentRef, namespace)
  }

  // ---------------------------------------------------------------- what an update keeps

  /** The entry belongs to a listed parent other than that of the update. */
  ghost predicate OfOtherParent(route: Route, u: Update, p: ParentStatus) {
    p in route.parents && KeyOf(p, route.namespace) != u.Target() && Listed(route.parentRefs, route.namespace, KeyOf(p, route.namespace))
  }

  lemma KeptIsLast(route: Route, u: Update, p: ParentStatus)
    requires OfOtherParent(route, u, p)
    ensures var m := StatusMap(route.parents, route.namespace); var key := KeyOf(p, route.namespace);
            key in m && m[key] in route.parents && KeyOf(m[key], route.namespace) == key
            && (p in Updated(route, u).parents <==> p == m[key])
  {
    var m, key := StatusMap(route.parents, route.namespace), KeyOf(p, route.namespace);
    StatusMapKeys(route.parents, route.namespace, key);
    MapIsKeyed(route.parents, route.namespace);
    EntriesContain(route, m, u, route.parentRefs, p);
    var ref :| ref in route.parentRefs && ParentKey(ref, route.namespace) == key;
    assert Entry(route, m, u, ref) == [m[key]];
    if p in Updated(route, u).parents {
      KeptEntriesAreOne(route, m, u, route.parentRefs, p);
    }
  }

  /** Every entry of another listed parent survives the update if and only if, among those, entries
      with the same key are the same entry. */
  lemma OthersSurviveExactlyWhen(route: Route, u: Update)
    ensures (forall p :: OfOtherParent(route, u, p) ==> p in Updated(route, u).parents) <==>
            (forall p, r :: OfOtherParent(route, u, p) && OfOtherParent(route, u, r) ==>
               KeyOf(p, route.namespace) == KeyOf(r, route.namespace) ==> p == r)
  {
    var m := StatusMap(route.parents, route.namespace);
    forall p | OfOtherParent(route, u, p)
      ensures var key := KeyOf(p, route.namespace);
              key in m && m[key] in route.parents && KeyOf(m[key], route.namespace) == key
              && (p in Updated(route, u).parents <==> p == m[key])
    {
      KeptIsLast(route, u, p);
    }
    forall p | OfOtherParent(route, u, p) ensures OfOtherParent(route, u, m[KeyOf(p, route.namespace)]) {
    }
  }

  // ---------------------------------------------------------------- what the comparison sees

  predicate DistinctKeys(parents: seq<ParentStatus>, namespace: string) {
    forall i, j :: 0 <= i < j < |parents| ==> KeyOf(parents[i], namespace) != KeyOf(parents[j], namespace)
  }

  function Keys(parents: seq<ParentStatus>, namespace: string): set<string> {
    StatusMap(parents, namespace).Keys
  }

  lemma KeyIsStored(parents: seq<ParentStatus>, namespace: string, key: string)
    ensures key in Keys(parents, namespace) <==> exists i :: 0 <= i < |parents| && KeyOf(parents[i], namespace) == key
  {
    StatusMapKeys(parents, namespace, key);
    if key in Keys(parents, namespace) {
      var i :| 0 <= i < |parents| && parents[i] == StatusMap(parents, namespace)[key];
      assert KeyOf(parents[i], namespace) == key;
    }
  }

  lemma DistinctSnoc(front: seq<ParentStatus>, last: ParentStatus, namespace: string)
    ensures DistinctKeys(front + [last], namespace) <==>
              DistinctKeys(front, namespace) && KeyOf(last, namespace) !in Keys(front, namespace)
  {
    KeyIsStored(front, namespace, KeyOf(last, namespace));
    var all := front + [last];
    assert forall i :: 0 <= i < |front| ==> all[i] == front[i];
    assert all[|front|] == last;
  }

  lemma {:induction false} KeysSize(parents: seq<ParentStatus>, namespace: string)
    ensures |Keys(parents, namespace)| <= |parents|
    ensures |Keys(parents, namespace)| == |parents| <==> DistinctKeys(parents, namespace)
  {
    if parents != [] {
      var front, last := parents[..|parents| - 1], parents[|parents| - 1];
      KeysSize(front, namespace);
      DistinctSnoc(front, last, namespace);
      assert parents == front + [last];
      assert Keys(parents, namespace) == Keys(front, namespace) + {KeyOf(last, namespace)};
    }
  }

  lemma SubsetOfSameSize(a: set<string>, b: set<string>)
    requires a <= b && |b| <= |a|
    ensures a == b
  {
    if x :| x in b && x !in a {
      assert a <= b - {x};
      SubsetSize(a, b - {x});
    }
  }

  lemma {:induction false} SubsetSize(a: set<string>, b: set<string>)
    requires a <= b
    ensures |a| <= |b|
  {
    if x :| x in a {
      SubsetSize(a - {x}, b - {x});
    }
  }

  /** If the stored keys are distinct, a status judged identical has the same parents with the same
      controllers and conditions, so a patch that is skipped loses nobody's entry. */
  lemma IdenticalKeepsParents(old0: seq<ParentStatus>, new0: seq<ParentStatus>, namespace: string)
    requires DistinctKeys(old0, namespace) && Identical(old0, new0, namespace)
    ensures Keys(old0, namespace) == Keys(new0, namespace) && DistinctKeys(new0, namespace)
  {
    KeysSize(old0, namespace);
    KeysSize(new0, namespace);
    SubsetOfSameSize(Keys(old0, namespace), Keys(new0, namespace));
  }

  lemma {:induction false} StatusMapJoins(a: seq<ParentStatus>, b: seq<ParentStatus>, namespace: string)
    ensures StatusMap(a + b, namespace) == StatusMap(a, namespace) + StatusMap(b, namespace)
  {
    if b == [] {
      assert a + b == a;
    } else {
      StatusMapJoins(a, b[..|b| - 1], namespace);
      assert (a + b)[..|a + b| - 1] == a + b[..|b| - 1];
    }
  }

  /** An entry that a later one under its key hides does not count. */
  lemma HiddenEntryIsIgnored(a: seq<ParentStatus>, p: ParentStatus, b: seq<ParentStatus>, namespace: string)
    requires KeyOf(p, namespace) in Keys(b, namespace)
    ensures StatusMap(a + [p] + b, namespace) == StatusMap(a + b, namespace)
  {
    StatusMapConcat(a, p, namespace);
    StatusMapJoins(a + [p], b, namespace);
    StatusMapJoins(a, b, namespace);
  }

  lemma {:induction false} KeysAreBounded(parents: seq<ParentStatus>, namespace: string) returns (n: nat)
    ensures forall key :: key in Keys(parents, namespace) ==> |key| <= n
  {
    n := 0;
    if parents != [] {
      var before := KeysAreBounded(parents[..|parents| - 1], namespace);
      n := before + |KeyOf(parents[|parents| - 1], namespace)|;
    }
  }

  lemma NewParent(parents: seq<ParentStatus>, namespace: string) returns (p: ParentStatus)
    ensures KeyOf(p, namespace) !in Keys(parents, namespace)
  {
    var n := KeysAreBounded(parents, namespace);
    var name := seq(n, i => 'a');
    p := ParentStatus(ParentRef(None, None, None, name, None, None), "controller", []);
    JoinLength(["", "", namespace, name, "", ""], name);
  }

  /** The status without its i-th entry, which a later one hides, but with a new parent. */
  lemma SwappedLooksIdentical(old0: seq<ParentStatus>, i: nat, j: nat, p: ParentStatus, namespace: string)
    requires i < j < |old0| && KeyOf(old0[i], namespace) == KeyOf(old0[j], namespace)
    requires KeyOf(p, namespace) !in Keys(old0, namespace) && forall e :: e in old0 ==> Consistent(e.conditions)
    ensures var new0 := [p] + (old0[..i] + old0[i + 1..]);
            Identical(old0, new0, namespace) && KeyOf(p, namespace) in Keys(new0, namespace)
  {
    var rest := old0[..i] + old0[i + 1..];
    assert old0 == old0[..i] + [old0[i]] + old0[i + 1..];
    assert KeyOf(old0[i], namespace) in Keys(old0[i + 1..], namespace) by {
      assert old0[i + 1..][j - i - 1] == old0[j];
      StatusMapKeys(old0[i + 1..], namespace, KeyOf(old0[j], namespace));
    }
    HiddenEntryIsIgnored(old0[..i], old0[i], old0[i + 1..], namespace);
    StatusMapJoins([p], rest, namespace);
    var a, b := StatusMap(old0, namespace), StatusMap([p] + rest, namespace);
    assert [p][..0] == [] && StatusMap([p], namespace) == map[KeyOf(p, namespace) := p];
    forall key | key in a
      ensures key in b && a[key].controllerName == b[key].controllerName && ConditionsEqual(a[key].conditions, b[key].conditions)
    {
      StatusMapKeys(old0, namespace, key);
      EqualToItself(a[key].conditions);
    }
  }

  /** The comparison can be relied on if and only if the stored keys are distinct: only then does a
      status judged identical always have the same parents. */
  lemma ComparisonKeepsParentsExactlyWhen(old0: seq<ParentStatus>, namespace: string)
    requires forall e :: e in old0 ==> Consistent(e.conditions)
    ensures (forall new0 :: Identical(old0, new0, namespace) ==> Keys(old0, namespace) == Keys(new0, namespace)) <==>
            DistinctKeys(old0, namespace)
  {
    if DistinctKeys(old0, namespace) {
      forall new0 | Identical(old0, new0, namespace) ensures Keys(old0, namespace) == Keys(new0, namespace) {
        IdenticalKeepsParents(old0, new0, namespace);
      }
    } else {
      var i, j :| 0 <= i < j < |old0| && KeyOf(old0[i], namespace) == KeyOf(old0[j], namespace);
      var p := NewParent(old0, namespace);
      SwappedLooksIdentical(old0, i, j, p, namespace);
    }
  }

  // ---------------------------------------------------------------- an update keeps keys distinct

  predicate DistinctRefs(refs: seq<ParentRef>, namespace: string) {
    forall i, j :: 0 <= i < j < |refs| ==> ParentKey(refs[i], namespace) != ParentKey(refs[j], namespace)
  }

  lemma EntryKey(route: Route, m: map<string, ParentStatus>, u: Update, ref: ParentRef)
    requires Keyed(m, route.namespace)
    ensures |Entry(route, m, u, ref)| <= 1
    ensures forall p :: p in Entry(route, m, u, ref) ==> KeyOf(p, route.namespace) == ParentKey(ref, route.namespace)
  {
  }

  lemma {:induction false} EntriesDistinct(route: Route, m: map<string, ParentStatus>, u: Update, refs: seq<ParentRef>)
    requires Keyed(m, route.namespace) && DistinctRefs(refs, route.namespace)
    ensures DistinctKeys(Entries(route, m, u, refs), route.namespace)
  {
    if refs != [] {
      var front, last := refs[..|refs| - 1], refs[|refs| - 1];
      var before := Entries(route, m, u, front);
      EntriesDistinct(route, m, u, front);
      EntryKey(route, m, u, last);
      forall p | p in before ensures KeyOf(p, route.namespace) != ParentKey(last, route.namespace) {
        EntriesContain(route, m, u, front, p);
        var ref :| ref in front && p in Entry(route, m, u, ref);
        EntryKey(route, m, u, ref);
        var i :| 0 <= i < |front| && front[i] == ref;
        assert refs[i] == ref;
      }
    }
  }

  /** A route whose references have distinct keys ends up with distinct keys, so only statuses written
      by others can be ambiguous. */
  lemma UpdateLeavesKeysDistinct(route: Route, u: Update)
    requires DistinctRefs(route.parentRefs, route.namespace)
    ensures DistinctKeys(Updated(route, u).parents, route.namespace)
  {
    MapIsKeyed(route.parents, route.namespace);
    EntriesDistinct(route, StatusMap(route.parents, route.namespace), u, route.parentRefs);
  }

  // ---------------------------------------------------------------- concrete inputs

  function Ref(name: string, namespace: Option<string>): ParentRef {
    ParentRef(None, None, namespace, name, None, None)
  }

  const A := Ref("a", None)
  const B := Ref("b", None)
  const X := ParentStatus(B, "one", [])
  const Y := ParentStatus(B, "two", [])

  lemma PairMap(p: ParentStatus, r: ParentStatus, namespace: string)
    ensures StatusMap([p, r], namespace) == map[KeyOf(p, namespace) := p][KeyOf(r, namespace) := r]
  {
    StatusMapConcat([], p, namespace);
    StatusMapConcat([p], r, namespace);
    assert [] + [p] == [p] && [p] + [r] == [p, r];
  }

  lemma PairEntries(route: Route, m: map<string, ParentStatus>, u: Update, a: ParentRef, b: ParentRef)
    ensures Entries(route, m, u, [a, b]) == Entry(route, m, u, a) + Entry(route, m, u, b)
  {
    assert [a, b][..1] == [a] && [a][..0] == [];
    assert Entries(route, m, u, [a]) == Entry(route, m, u, a);
  }

  lemma TwoReports(route: Route, u: Update, a: ParentRef, b: ParentRef, x: ParentStatus, y: ParentStatus)
    requires route.parentRefs == [a, b] && route.parents == [x, y] && x != y && Consistent(y.conditions)
    requires ParentKey(a, route.namespace) == u.Target() != ParentKey(b, route.namespace)
    requires KeyOf(x, route.namespace) == KeyOf(y, route.namespace) == ParentKey(b, route.namespace)
    ensures OfOtherParent(route, u, x) && x !in Updated(route, u).parents
    ensures u.Target() !in Keys(route.parents, route.namespace) && u.Target() in Keys(Updated(route, u).parents, route.namespace)
    ensures Identical(route.parents, Updated(route, u).parents, route.namespace)
  {
    var namespace := route.namespace;
    var m := StatusMap(route.parents, namespace);
    PairMap(x, y, namespace);
    assert route.parents[0] == x && route.parentRefs[1] == b;
    KeptIsLast(route, u, x);
    PairEntries(route, m, u, a, b);
    var e := Entry(route, m, u, a)[0];
    assert Updated(route, u).parents == [e, y];
    PairMap(e, y, namespace);
    EqualToItself(y.conditions);
  }

  lemma KeysDiffer()
    ensures ParentKey(A, "ns") != ParentKey(B, "ns")
  {
    assert forall s :: s in Components(A, "ns") + Components(B, "ns") ==> '/' !in s;
    KeyNamesParent(A, B, "ns");
    assert Components(A, "ns")[3] == "a" && Components(B, "ns")[3] == "b";
  }

  /** Two controllers report on parent B, and the first status of parent A comes in: the report of the
      first controller is dropped, and the result is judged identical to the stored status, so the
      patch is skipped and A's status is lost. */
  lemma TwoReportsLoseAStatus()
    ensures var route := Route("ns", 1, [A, B], [X, Y]); var u := PlainUpdate(A, "ns"); var after := Updated(route, u);
            && OfOtherParent(route, u, X) && X !in after.parents
            && u.Target() !in Keys(route.parents, "ns") && u.Target() in Keys(after.parents, "ns")
            && Identical(route.parents, after.parents, "ns")
  {
    KeysDiffer();
    TwoReports(Route("ns", 1, [A, B], [X, Y]), PlainUpdate(A, "ns"), A, B, X, Y);
  }

  /** A reference without a namespace and one with the namespace of the route share a key; updates for
      that parent and for another do not commute. */
  lemma SpelledOutNamespaceBreaksCommuting()
    ensures var refs := [A, Ref("a", Some("ns")), B];
            !CommuteOn(Route("ns", 1, refs, []), PlainUpdate(A, "ns"), PlainUpdate(B, "ns"))
  {
    var spelled := Ref("a", Some("ns"));
    var refs := [A, spelled, B];
    KeysDiffer();
    assert Components(A, "ns") == Components(spelled, "ns");
    assert refs[0] == A && refs[1] == spelled;
    SameKeyBreaksCommuting(Route("ns", 1, refs, []), A, spelled, PlainUpdate(A, "ns"), PlainUpdate(B, "ns"));
  }
}
