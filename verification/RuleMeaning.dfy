/** What the emitted conditions of a rule mean for requests, and when there are none, said on the
    path and the condition annotations themselves. */
module RuleMeaning {
  import opened Options
  import opened ListenerRules
  import opened IngressPaths
  import Glob
  import Text

  // ---------------------------------------------------------------- what the annotations say

  ghost predicate HostGlobIn(bs: seq<BackendCondition>, v: string) {
    exists b :: b in bs && b.field.HostHeader? && b.hostConfig.Some? && v in b.hostConfig.value.values
  }

  ghost predicate HostRegexIn(bs: seq<BackendCondition>, v: string) {
    exists b :: b in bs && b.field.HostHeader? && b.hostConfig.Some? && v in b.hostConfig.value.regexValues
  }

  ghost predicate PathGlobIn(bs: seq<BackendCondition>, v: string) {
    exists b :: b in bs && b.field.PathPattern? && b.pathConfig.Some? && v in b.pathConfig.value.values
  }

  ghost predicate PathRegexIn(bs: seq<BackendCondition>, v: string) {
    exists b :: b in bs && b.field.PathPattern? && b.pathConfig.Some? && v in b.pathConfig.value.regexValues
  }

  predicate OfOtherKind(b: BackendCondition) {
    !b.field.HostHeader? && !b.field.PathPattern?
  }

  ghost predicate OtherIn(bs: seq<BackendCondition>, c: Condition) {
    exists b :: b in bs && OfOtherKind(b) && b.detail.Some? && c == Condition(b.field, None, None, b.detail.value)
  }

  /** The annotation lacks the configuration its kind needs. */
  predicate Incomplete(b: BackendCondition) {
    if b.field.HostHeader? then b.hostConfig.None?
    else if b.field.PathPattern? then b.pathConfig.None?
    else b.detail.None?
  }

  // ---------------------------------------------------------------- the tests of a request

  /** The rule's host or one of the annotated ones matches, or there is none. */
  ghost predicate HostTest(sem: Semantics, host: string, bs: seq<BackendCondition>, h: string) {
    || (host == "" && !(exists v :: HostGlobIn(bs, v)) && !(exists v :: HostRegexIn(bs, v)))
    || (host != "" && HostGlobMatches(host, h))
    || (exists v :: HostGlobIn(bs, v) && HostGlobMatches(v, h))
    || (exists v :: HostRegexIn(bs, v) && sem.hostRegex(v, h))
  }

  predicate IsRegexPath(useRegex: Result<bool, PathError>, p: IngressPath) {
    p.path != "" && (p.pathType == None || p.pathType == Some(ImplementationSpecific)) && useRegex == Ok(true)
  }

  /** The path itself matches, by its type. */
  ghost predicate OwnPathMatches(sem: Semantics, useRegex: Result<bool, PathError>, p: IngressPath, path: string) {
    p.path != "" &&
    if p.pathType == Some(Exact) then path == p.path
    else if p.pathType == Some(Prefix) then ElementWisePrefix(p.path, path)
    else if useRegex == Ok(true) then sem.pathRegex(p.path[1..], path)
    else Glob.Matches(p.path, path)
  }

  /** The path or one of the annotated ones matches, or there is none. */
  ghost predicate PathTest(sem: Semantics, useRegex: Result<bool, PathError>, p: IngressPath, bs: seq<BackendCondition>, path: string) {
    || (p.path == "" && !(exists v :: PathGlobIn(bs, v)) && !(exists v :: PathRegexIn(bs, v)))
    || OwnPathMatches(sem, useRegex, p, path)
    || (exists v :: PathGlobIn(bs, v) && Glob.Matches(v, path))
    || (exists v :: PathRegexIn(bs, v) && sem.pathRegex(v, path))
  }

  /** Every annotation of another kind holds. */
  ghost predicate OtherTests(sem: Semantics, bs: seq<BackendCondition>, q: Request) {
    forall b :: b in bs && OfOtherKind(b) ==>
      b.detail.Some? && sem.other(Condition(b.field, None, None, b.detail.value), q.query, q.rest)
  }

  // ---------------------------------------------------------------- collecting

  lemma {:induction false} CollectFails(p: Parts, bs: seq<BackendCondition>)
    ensures Collect(p, bs).Ok? <==> forall b :: b in bs ==> !Incomplete(b)
    ensures forall i :: 0 <= i < |bs| && Incomplete(bs[i]) && (forall j :: 0 <= j < i ==> !Incomplete(bs[j])) ==>
              Collect(p, bs) == Err(MissingConfig(bs[i].field))
    decreases bs
  {
    if bs != [] {
      assert bs == [bs[0]] + bs[1..];
      assert AddCondition(p, bs[0]).Err? <==> Incomplete(bs[0]);
      if !Incomplete(bs[0]) {
        CollectFails(AddCondition(p, bs[0]).value, bs[1..]);
        assert forall j :: 0 < j < |bs| ==> bs[j] == bs[1..][j - 1];
      }
    }
  }

  /** What is collected, by value: what was there and what the annotations say. */
  ghost predicate Holds(p: Parts, bs: seq<BackendCondition>, r: Parts) {
    && (forall v :: v in r.hostValues <==> v in p.hostValues || HostGlobIn(bs, v))
    && (forall v :: v in r.hostRegexValues <==> v in p.hostRegexValues || HostRegexIn(bs, v))
    && (forall v :: v in r.pathValues <==> v in p.pathValues || PathGlobIn(bs, v))
    && (forall v :: v in r.pathRegexValues <==> v in p.pathRegexValues || PathRegexIn(bs, v))
    && (forall c :: c in r.conditions <==> c in p.conditions || OtherIn(bs, c))
  }

  lemma OneHolds(p: Parts, b: BackendCondition)
    requires AddCondition(p, b).Ok?
    ensures Holds(p, [b], AddCondition(p, b).value)
  {
    assert forall x :: x in [b] <==> x == b;
  }

  lemma ConsIn(b: BackendCondition, bs: seq<BackendCondition>)
    ensures forall v :: HostGlobIn([b] + bs, v) <==> HostGlobIn([b], v) || HostGlobIn(bs, v)
    ensures forall v :: HostRegexIn([b] + bs, v) <==> HostRegexIn([b], v) || HostRegexIn(bs, v)
    ensures forall v :: PathGlobIn([b] + bs, v) <==> PathGlobIn([b], v) || PathGlobIn(bs, v)
    ensures forall v :: PathRegexIn([b] + bs, v) <==> PathRegexIn([b], v) || PathRegexIn(bs, v)
    ensures forall c :: OtherIn([b] + bs, c) <==> OtherIn([b], c) || OtherIn(bs, c)
  {
    assert forall x :: x in [b] + bs <==> x in [b] || x in bs;
  }

  lemma {:induction false} CollectHolds(p: Parts, bs: seq<BackendCondition>)
    requires Collect(p, bs).Ok?
    ensures Holds(p, bs, Collect(p, bs).value)
    decreases bs
  {
    if bs != [] {
      CollectHolds(AddCondition(p, bs[0]).value, bs[1..]);
      OneHolds(p, bs[0]);
      ConsIn(bs[0], bs[1..]);
      assert bs == [bs[0]] + bs[1..];
    }
  }

  // ---------------------------------------------------------------- when there are conditions

  /** The path cannot be turned into a pattern. */
  predicate PathRejected(useRegex: Result<bool, PathError>, p: IngressPath) {
    p.path != "" &&
    if p.pathType == None || p.pathType == Some(ImplementationSpecific) then useRegex.Err?
    else if p.pathType == Some(Exact) || p.pathType == Some(Prefix) then '*' in p.path || '?' in p.path
    else true
  }

  ghost predicate BothHosts(host: string, bs: seq<BackendCondition>) {
    (host != "" || exists v :: HostGlobIn(bs, v)) && exists v :: HostRegexIn(bs, v)
  }

  ghost predicate BothPaths(useRegex: Result<bool, PathError>, p: IngressPath, bs: seq<BackendCondition>) {
    && ((p.path != "" && !IsRegexPath(useRegex, p)) || exists v :: PathGlobIn(bs, v))
    && (IsRegexPath(useRegex, p) || exists v :: PathRegexIn(bs, v))
  }

  lemma StartFails(useRegex: Result<bool, PathError>, host: string, p: IngressPath)
    ensures StartParts(useRegex, host, p).Err? <==> PathRejected(useRegex, p)
  {
  }

  lemma StartHolds(useRegex: Result<bool, PathError>, host: string, p: IngressPath)
    requires !PathRejected(useRegex, p)
    ensures var s := StartParts(useRegex, host, p).value;
            && s.hostValues == (if host == "" then [] else [host]) && s.hostRegexValues == [] && s.conditions == []
            && (s.pathValues != [] <==> p.path != "" && !IsRegexPath(useRegex, p))
            && (s.pathRegexValues != [] <==> IsRegexPath(useRegex, p))
  {
  }

  lemma SomeElement<T>(s: seq<T>)
    ensures s != [] <==> exists v :: v in s
  {
    if s != [] {
      assert s[0] in s;
    }
  }

  lemma CollectedKinds(useRegex: Result<bool, PathError>, host: string, p: IngressPath, bs: seq<BackendCondition>)
    requires !PathRejected(useRegex, p) && Collect(StartParts(useRegex, host, p).value, bs).Ok?
    ensures var r := Collect(StartParts(useRegex, host, p).value, bs).value;
            && (r.hostValues != [] <==> host != "" || exists v :: HostGlobIn(bs, v))
            && (r.hostRegexValues != [] <==> exists v :: HostRegexIn(bs, v))
            && (r.pathValues != [] <==> (p.path != "" && !IsRegexPath(useRegex, p)) || exists v :: PathGlobIn(bs, v))
            && (r.pathRegexValues != [] <==> IsRegexPath(useRegex, p) || exists v :: PathRegexIn(bs, v))
  {
    var s := StartParts(useRegex, host, p).value;
    var r := Collect(s, bs).value;
    StartHolds(useRegex, host, p);
    CollectHolds(s, bs);
    SomeElement(s.hostValues);
    SomeElement(s.hostRegexValues);
    SomeElement(s.pathValues);
    SomeElement(s.pathRegexValues);
    SomeElement(r.hostValues);
    SomeElement(r.hostRegexValues);
    SomeElement(r.pathValues);
    SomeElement(r.pathRegexValues);
  }

  /** There are no conditions exactly if the path is rejected, else an annotation is incomplete, else
      hosts or else paths are given in both syntaxes; and the error says which. */
  lemma ConditionsFailExactlyWhen(useRegex: Result<bool, PathError>, host: string, p: IngressPath, bs: seq<BackendCondition>)
    ensures var r := RuleConditions(useRegex, host, p, bs);
            && (r.Err? <==> PathRejected(useRegex, p) || (exists b :: b in bs && Incomplete(b))
                            || BothHosts(host, bs) || BothPaths(useRegex, p, bs))
            && (PathRejected(useRegex, p) ==>
                  r.Err? && r.error in {WildcardInPath(p.path), UnknownPathType(p.path)} + if useRegex.Err? then {useRegex.error} else {})
            && (!PathRejected(useRegex, p) ==>
                  forall i :: 0 <= i < |bs| && Incomplete(bs[i]) && (forall j :: 0 <= j < i ==> !Incomplete(bs[j])) ==>
                    r == Err(MissingConfig(bs[i].field)))
            && (!PathRejected(useRegex, p) && !(exists b :: b in bs && Incomplete(b)) && BothHosts(host, bs) ==> r == Err(BothHostKinds))
            && (!PathRejected(useRegex, p) && !(exists b :: b in bs && Incomplete(b)) && !BothHosts(host, bs) && BothPaths(useRegex, p, bs) ==>
                  r == Err(BothPathKinds))
  {
    StartFails(useRegex, host, p);
    if !PathRejected(useRegex, p) {
      var s := StartParts(useRegex, host, p).value;
      CollectFails(s, bs);
      if Collect(s, bs).Ok? {
        CollectedKinds(useRegex, host, p, bs);
      }
    }
  }

  // ---------------------------------------------------------------- what the conditions match

  lemma HostConditionMeans(sem: Semantics, values: seq<string>, regexValues: seq<string>, q: Request)
    ensures ConditionsMatch(sem, HostCondition(values, regexValues), q) <==>
              (values == [] && regexValues == []) || HostMatches(sem, Patterns(values, regexValues), q.host)
  {
    if values != [] || regexValues != [] {
      var c := HostCondition(values, regexValues)[0];
      assert HostCondition(values, regexValues) == [c] && c in [c];
      assert ConditionMatches(sem, c, q) <==> HostMatches(sem, Patterns(values, regexValues), q.host);
    }
  }

  lemma PathConditionMeans(sem: Semantics, values: seq<string>, regexValues: seq<string>, q: Request)
    ensures ConditionsMatch(sem, PathCondition(values, regexValues), q) <==>
              (values == [] && regexValues == []) || PathMatches(sem, Patterns(values, regexValues), q.path)
  {
    if values != [] || regexValues != [] {
      var c := PathCondition(values, regexValues)[0];
      assert PathCondition(values, regexValues) == [c] && c in [c];
      assert ConditionMatches(sem, c, q) <==> PathMatches(sem, Patterns(values, regexValues), q.path);
    }
  }

  lemma AssembledMeans(sem: Semantics, r: Parts, q: Request)
    requires Assemble(r).Ok? && q.HasAbsolutePath()
    ensures ConditionsMatch(sem, Assemble(r).value, q) <==>
              && ConditionsMatch(sem, r.conditions, q)
              && ((r.hostValues == [] && r.hostRegexValues == []) || HostMatches(sem, Patterns(r.hostValues, r.hostRegexValues), q.host))
              && ((r.pathValues == [] && r.pathRegexValues == []) || PathMatches(sem, Patterns(r.pathValues, r.pathRegexValues), q.path))
  {
    var hs, ps := HostCondition(r.hostValues, r.hostRegexValues), PathCondition(r.pathValues, r.pathRegexValues);
    ConcatMatches(sem, r.conditions + hs, ps, q);
    ConcatMatches(sem, r.conditions, hs, q);
    HostConditionMeans(sem, r.hostValues, r.hostRegexValues, q);
    PathConditionMeans(sem, r.pathValues, r.pathRegexValues, q);
    SlashStarMatches(sem, q);
  }

  lemma OwnPatternsMean(sem: Semantics, useRegex: Result<bool, PathError>, p: IngressPath, path: string)
    requires !PathRejected(useRegex, p) && p.path != "" && path != ""
    ensures PathPatterns(useRegex, p).Ok?
    ensures PathMatches(sem, PathPatterns(useRegex, p).value, path) <==> OwnPathMatches(sem, useRegex, p, path)
  {
    var ps := PathPatterns(useRegex, p).value;
    if p.pathType == Some(Exact) {
      assert ps == Patterns([p.path], []) && p.path in ps.values;
      Glob.LiteralMatchesItself(p.path, path);
    } else if p.pathType == Some(Prefix) {
      PrefixPatternsMeanElementWisePrefix(p.path, path);
    } else if useRegex == Ok(true) {
      assert ps == Patterns([], [p.path[1..]]) && p.path[1..] in ps.regexValues;
    } else {
      assert ps == Patterns([p.path], []) && p.path in ps.values;
    }
  }

  lemma HostsMean(sem: Semantics, host: string, bs: seq<BackendCondition>, s: Parts, r: Parts, h: string)
    requires Holds(s, bs, r) && s.hostValues == (if host == "" then [] else [host]) && s.hostRegexValues == []
    ensures ((r.hostValues == [] && r.hostRegexValues == []) || HostMatches(sem, Patterns(r.hostValues, r.hostRegexValues), h)) <==>
              HostTest(sem, host, bs, h)
  {
    SomeElement(r.hostValues);
    SomeElement(r.hostRegexValues);
    assert host != "" ==> host in s.hostValues && host in r.hostValues;
  }

  lemma PathsMean(sem: Semantics, useRegex: Result<bool, PathError>, host: string, p: IngressPath, bs: seq<BackendCondition>, r: Parts, path: string)
    requires !PathRejected(useRegex, p) && path != "" && Holds(StartParts(useRegex, host, p).value, bs, r)
    ensures ((r.pathValues == [] && r.pathRegexValues == []) || PathMatches(sem, Patterns(r.pathValues, r.pathRegexValues), path)) <==>
              PathTest(sem, useRegex, p, bs, path)
  {
    var s := StartParts(useRegex, host, p).value;
    StartHolds(useRegex, host, p);
    SomeElement(s.pathValues);
    SomeElement(s.pathRegexValues);
    SomeElement(r.pathValues);
    SomeElement(r.pathRegexValues);
    if p.path != "" {
      OwnPatternsMean(sem, useRegex, p, path);
      assert PathMatches(sem, Patterns(s.pathValues, s.pathRegexValues), path) <==> OwnPathMatches(sem, useRegex, p, path);
    }
  }

  lemma OthersMean(sem: Semantics, bs: seq<BackendCondition>, s: Parts, r: Parts, q: Request)
    requires Holds(s, bs, r) && s.conditions == [] && forall b :: b in bs ==> !Incomplete(b)
    ensures ConditionsMatch(sem, r.conditions, q) <==> OtherTests(sem, bs, q)
  {
    forall b | b in bs && OfOtherKind(b) ensures Condition(b.field, None, None, b.detail.value) in r.conditions {
      assert OtherIn(bs, Condition(b.field, None, None, b.detail.value));
    }
    forall c | c in r.conditions ensures OtherIn(bs, c) && !c.IsHost() && !c.IsPath() {
      assert OtherIn(bs, c);
    }
  }

  /** Whatever the annotations are, the emitted conditions match a request iff the host, the path and
      every other annotation do. */
  lemma ConditionsMean(sem: Semantics, useRegex: Result<bool, PathError>, host: string, p: IngressPath, bs: seq<BackendCondition>, q: Request)
    requires q.HasAbsolutePath() && RuleConditions(useRegex, host, p, bs).Ok?
    ensures ConditionsMatch(sem, RuleConditions(useRegex, host, p, bs).value, q) <==>
              HostTest(sem, host, bs, q.host) && PathTest(sem, useRegex, p, bs, q.path) && OtherTests(sem, bs, q)
  {
    StartFails(useRegex, host, p);
    var s := StartParts(useRegex, host, p).value;
    var r := Collect(s, bs).value;
    CollectFails(s, bs);
    CollectHolds(s, bs);
    StartHolds(useRegex, host, p);
    AssembledMeans(sem, r, q);
    HostsMean(sem, host, bs, s, r, q.host);
    PathsMean(sem, useRegex, host, p, bs, r, q.path);
    OthersMean(sem, bs, s, r, q);
  }

  /** For instance an Exact path with an HTTP header annotation: both are asked of a request. */
  lemma HeaderIsAsked(sem: Semantics, q: Request)
    requires q.HasAbsolutePath()
    ensures var p := IngressPath("/foo", Some(Exact), "svc");
            var r := RuleConditions(Ok(false), "", p, [BackendCondition(HttpHeader, None, None, Some("X=1"))]);
            r.Ok? && (ConditionsMatch(sem, r.value, q) <==>
                        q.path == "/foo" && sem.other(Condition(HttpHeader, None, None, "X=1"), q.query, q.rest))
  {
    var p, b := IngressPath("/foo", Some(Exact), "svc"), BackendCondition(HttpHeader, None, None, Some("X=1"));
    ConditionsFailExactlyWhen(Ok(false), "", p, [b]);
    ConditionsMean(sem, Ok(false), "", p, [b], q);
    assert b in [b] && OfOtherKind(b);
  }
}
