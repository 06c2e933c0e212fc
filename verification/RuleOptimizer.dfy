/** The rule optimizer: it omits redirect rules that would loop and rules that an earlier
    redirect rule overshadows. */
module RuleOptimizer {
  import opened Options
  import opened ListenerRules
  import Glob
  import GreedyFilter
  import Text

  // ---------------------------------------------------------------- redirect actions

  ghost predicate RedirectsBy(actions: seq<Action>, k: nat) {
    k < |actions| && actions[k].kind.Redirect? && forall i :: 0 <= i < k ==> !actions[i].kind.Redirect?
  }

  function RedirectOf(actions: seq<Action>): (cfg: Option<RedirectConfig>)
    ensures forall k: nat :: RedirectsBy(actions, k) ==> cfg == actions[k].redirectConfig
    ensures (forall a :: a in actions ==> !a.kind.Redirect?) ==> cfg == None
  {
    if actions == [] then None
    else if actions[0].kind.Redirect? then actions[0].redirectConfig
    else
      assert forall k: nat :: RedirectsBy(actions, k) ==> k > 0 && RedirectsBy(actions[1..], k - 1);
      RedirectOf(actions[1..])
  }

  /** The redirect configuration of the first redirect action, if any. */
  method FindRedirectActionConfig(actions: seq<Action>) returns (cfg: Option<RedirectConfig>)
    ensures cfg == RedirectOf(actions)
  {
    cfg := None;
    for i := 0 to |actions|
      invariant cfg == None
      invariant RedirectOf(actions) == RedirectOf(actions[i..])
    {
      if actions[i].kind.Redirect? {
        return actions[i].redirectConfig;
      }
      assert actions[i..][1..] == actions[i + 1..];
    }
  }

  predicate Redirects(rule: Rule) {
    RedirectOf(rule.actions).Some?
  }

  // ---------------------------------------------------------------- superset of conditions

  /** The strings the check compares for a path condition: regular expressions when it has any. */
  function TextsOf(p: Patterns): seq<string> {
    if |p.regexValues| > 0 then p.regexValues else p.values
  }

  function PathTexts(cs: seq<Condition>): set<string> {
    set c, v | c in cs && c.IsPath() && v in TextsOf(c.pathConfig.value) :: v
  }

  predicate OnlyHostAndPath(cs: seq<Condition>) {
    forall c :: c in cs ==> c.IsHost() || c.IsPath()
  }

  predicate IsSuperset(lhs: seq<Condition>, rhs: seq<Condition>) {
    && OnlyHostAndPath(lhs)
    && (HostGlobs(lhs) == {} || (HostGlobs(rhs) != {} && HostGlobs(rhs) <= HostGlobs(lhs)))
    && (PathTexts(lhs) == {} || "/*" in PathTexts(lhs) || (PathTexts(rhs) != {} && PathTexts(rhs) <= PathTexts(lhs)))
  }

  /** `sets.String.Insert(values...)`. */
  function Insert(s: set<string>, values: seq<string>): set<string> {
    s + (set v | v in values)
  }

  lemma PathTextsSnoc(cs: seq<Condition>, c: Condition)
    ensures PathTexts(cs + [c]) == PathTexts(cs) + (if c.IsPath() then set v | v in TextsOf(c.pathConfig.value) else {})
  {
    assert forall d :: d in cs + [c] <==> d in cs || d == c;
    if c.IsPath() {
      assert forall v :: v in TextsOf(c.pathConfig.value) ==> v in PathTexts(cs + [c]);
    }
  }

  method CollectHostsAndPaths(cs: seq<Condition>) returns (hosts: set<string>, paths: set<string>, onlyHostAndPath: bool)
    ensures hosts == HostGlobs(cs) && paths == PathTexts(cs) && onlyHostAndPath == OnlyHostAndPath(cs)
  {
    hosts, paths, onlyHostAndPath := {}, {}, true;
    for i := 0 to |cs|
      invariant hosts == HostGlobs(cs[..i]) && paths == PathTexts(cs[..i])
      invariant onlyHostAndPath == OnlyHostAndPath(cs[..i])
    {
      var c := cs[i];
      assert cs[..i + 1] == cs[..i] + [c];
      PathTextsSnoc(cs[..i], c);
      if c.IsHost() {
        hosts := Insert(hosts, c.hostConfig.value.values);
      } else if c.IsPath() {
        if |c.pathConfig.value.regexValues| > 0 {
          paths := Insert(paths, c.pathConfig.value.regexValues);
        } else {
          paths := Insert(paths, c.pathConfig.value.values);
        }
      } else {
        onlyHostAndPath := false;
      }
    }
    assert cs[..|cs|] == cs;
  }

  method IsSupersetConditions(lhs: seq<Condition>, rhs: seq<Condition>) returns (superset: bool)
    ensures superset == IsSuperset(lhs, rhs)
  {
    var lhsHosts, lhsPaths, lhsOnly := CollectHostsAndPaths(lhs);
    if !lhsOnly {
      return false;
    }
    var rhsHosts, rhsPaths, _ := CollectHostsAndPaths(rhs);
    var hostIsSuperset := |lhsHosts| == 0 || (|rhsHosts| != 0 && rhsHosts <= lhsHosts);
    var pathsIsSuperset := |lhsPaths| == 0 || "/*" in lhsPaths || (|rhsPaths| != 0 && rhsPaths <= lhsPaths);
    superset := hostIsSuperset && pathsIsSuperset;
  }

  lemma SupersetTransitive(a: seq<Condition>, b: seq<Condition>, c: seq<Condition>)
    requires IsSuperset(a, b) && IsSuperset(b, c)
    ensures IsSuperset(a, c)
  {
  }

  // ---------------------------------------------------------------- when the superset check is right

  ghost predicate CoversEveryPath(globs: set<string>) {
    forall path: string :: path != "" && path[0] == '/' ==> exists v :: v in globs && Glob.Matches(v, path)
  }

  /** Host regular expressions are invisible to the check, so the left side may only have some
      if the right side is restricted to a subset of them. */
  ghost predicate HostGuard(lhs: seq<Condition>, rhs: seq<Condition>) {
    HostRegexes(lhs) == {} || (HostRegexes(rhs) != {} && HostRegexes(rhs) <= HostRegexes(lhs))
  }

  /** Regular expressions and globs share one set in the check, so equal text must not be
      compared across the two syntaxes, and a regular expression spelled like the match-all glob does not match everything. */
  ghost predicate PathGuard(lhs: seq<Condition>, rhs: seq<Condition>) {
    if PathRegexes(lhs) != {} then PathRegexes(rhs) != {} && PathRegexes(rhs) <= PathRegexes(lhs)
    else PathRegexes(rhs) == {} || PathGlobs(lhs) == {} || CoversEveryPath(PathGlobs(lhs))
  }

  ghost predicate Includes(lhs: seq<Condition>, rhs: seq<Condition>) {
    forall sem: Semantics, q: Request :: q.HasAbsolutePath() && ConditionsMatch(sem, rhs, q) ==> ConditionsMatch(sem, lhs, q)
  }

  lemma ShapedPathTexts(cs: seq<Condition>)
    requires Shaped(cs)
    ensures PathTexts(cs) == if PathRegexes(cs) != {} then PathRegexes(cs) else PathGlobs(cs)
    ensures PathRegexes(cs) == {} || PathGlobs(cs) == {}
    ensures HostRegexes(cs) == {} || HostGlobs(cs) == {}
  {
    if c :| c in cs && c.IsPath() {
      assert forall d :: d in cs && d.IsPath() ==> d == c;
      assert PathGlobs(cs) == set v | v in c.pathConfig.value.values;
      assert PathRegexes(cs) == set v | v in c.pathConfig.value.regexValues;
      assert PathTexts(cs) == set v | v in TextsOf(c.pathConfig.value);
      if c.pathConfig.value.regexValues != [] {
        assert c.pathConfig.value.regexValues[0] in PathRegexes(cs);
      }
    }
    if c :| c in cs && c.IsHost() {
      assert forall d :: d in cs && d.IsHost() ==> d == c;
    }
  }

  lemma SlashStarCovers(globs: set<string>)
    requires "/*" in globs
    ensures CoversEveryPath(globs)
  {
    forall path: string | path != "" && path[0] == '/' ensures exists v :: v in globs && Glob.Matches(v, path) {
      Glob.LiteralStarMatchesExtensions("/", path);
      assert Glob.Matches("/*", path);
    }
  }

  /** Under the guards the check is right for every reading of the regular expressions. */
  lemma GuardedSupersetIncludes(lhs: seq<Condition>, rhs: seq<Condition>, sem: Semantics, q: Request)
    requires Shaped(lhs) && Shaped(rhs) && IsSuperset(lhs, rhs)
    requires HostGuard(lhs, rhs) && PathGuard(lhs, rhs)
    requires q.HasAbsolutePath() && ConditionsMatch(sem, rhs, q)
    ensures ConditionsMatch(sem, lhs, q)
  {
    ShapedMeaning(sem, lhs, q);
    ShapedMeaning(sem, rhs, q);
    ShapedPathTexts(lhs);
    ShapedPathTexts(rhs);
    if "/*" in PathGlobs(lhs) {
      SlashStarCovers(PathGlobs(lhs));
    }
  }

  /** Exactly when the check is right: a positive answer means that the left conditions match
      whatever the right ones match, for every reading of the regular expressions, if and only
      if both guards hold (for right conditions that match something at all). */
  lemma SupersetExact(lhs: seq<Condition>, rhs: seq<Condition>, sem0: Semantics, q0: Request)
    requires Shaped(lhs) && Shaped(rhs) && IsSuperset(lhs, rhs)
    requires q0.HasAbsolutePath() && ConditionsMatch(sem0, rhs, q0)
    ensures Includes(lhs, rhs) <==> HostGuard(lhs, rhs) && PathGuard(lhs, rhs)
  {
    if HostGuard(lhs, rhs) && PathGuard(lhs, rhs) {
      forall sem: Semantics, q: Request | q.HasAbsolutePath() && ConditionsMatch(sem, rhs, q)
        ensures ConditionsMatch(sem, lhs, q)
      {
        GuardedSupersetIncludes(lhs, rhs, sem, q);
      }
    } else {
      var sem, q := UnguardedCounterexample(lhs, rhs, sem0, q0);
    }
  }

  /** The right conditions match the request under this reading, the left ones do not. */
  ghost predicate Witness(sem: Semantics, q: Request, lhs: seq<Condition>, rhs: seq<Condition>) {
    q.HasAbsolutePath() && ConditionsMatch(sem, rhs, q) && !ConditionsMatch(sem, lhs, q)
  }

  function Anything(c: Condition, query: string, rest: string): bool {
    true
  }

  lemma UnguardedHosts(lhs: seq<Condition>, rhs: seq<Condition>, sem0: Semantics, q: Request) returns (sem: Semantics)
    requires Shaped(lhs) && Shaped(rhs) && IsSuperset(lhs, rhs) && !HostGuard(lhs, rhs)
    requires q.HasAbsolutePath() && ConditionsMatch(sem0, rhs, q)
    ensures Witness(sem, q, lhs, rhs)
  {
    var mine := HostRegexes(lhs);
    sem := Semantics((p: string, s: string) => p !in mine, sem0.pathRegex, Anything);
    ShapedPathTexts(lhs);
    ShapedPathTexts(rhs);
    ShapedMeaning(sem0, rhs, q);
    ShapedMeaning(sem, rhs, q);
    ShapedMeaning(sem, lhs, q);
  }

  lemma UnguardedPathRegexes(lhs: seq<Condition>, rhs: seq<Condition>, sem0: Semantics, q: Request) returns (sem: Semantics)
    requires Shaped(lhs) && Shaped(rhs) && IsSuperset(lhs, rhs) && !PathGuard(lhs, rhs) && PathRegexes(lhs) != {}
    requires q.HasAbsolutePath() && ConditionsMatch(sem0, rhs, q)
    ensures Witness(sem, q, lhs, rhs)
  {
    var mine := PathRegexes(lhs);
    sem := Semantics(sem0.hostRegex, (p: string, s: string) => p !in mine, Anything);
    ShapedPathTexts(lhs);
    ShapedPathTexts(rhs);
    ShapedMeaning(sem0, rhs, q);
    ShapedMeaning(sem, rhs, q);
    ShapedMeaning(sem, lhs, q);
  }

  lemma UnguardedPathGlobs(lhs: seq<Condition>, rhs: seq<Condition>, sem0: Semantics, q0: Request) returns (sem: Semantics, q: Request)
    requires Shaped(lhs) && Shaped(rhs) && IsSuperset(lhs, rhs) && !PathGuard(lhs, rhs) && PathRegexes(lhs) == {}
    requires q0.HasAbsolutePath() && ConditionsMatch(sem0, rhs, q0)
    ensures Witness(sem, q, lhs, rhs)
  {
    sem := Semantics(sem0.hostRegex, (p: string, s: string) => true, Anything);
    var path: string :| path != "" && path[0] == '/' && !exists v :: v in PathGlobs(lhs) && Glob.Matches(v, path);
    q := q0.(path := path);
    ShapedMeaning(sem0, rhs, q0);
    ShapedMeaning(sem, rhs, q);
    ShapedMeaning(sem, lhs, q);
  }

  lemma UnguardedCounterexample(lhs: seq<Condition>, rhs: seq<Condition>, sem0: Semantics, q0: Request)
    returns (sem: Semantics, q: Request)
    requires Shaped(lhs) && Shaped(rhs) && IsSuperset(lhs, rhs)
    requires q0.HasAbsolutePath() && ConditionsMatch(sem0, rhs, q0)
    requires !HostGuard(lhs, rhs) || !PathGuard(lhs, rhs)
    ensures q.HasAbsolutePath() && ConditionsMatch(sem, rhs, q) && !ConditionsMatch(sem, lhs, q)
  {
    q := q0;
    if !HostGuard(lhs, rhs) {
      sem := UnguardedHosts(lhs, rhs, sem0, q0);
    } else if PathRegexes(lhs) != {} {
      sem := UnguardedPathRegexes(lhs, rhs, sem0, q0);
    } else {
      sem, q := UnguardedPathGlobs(lhs, rhs, sem0, q0);
    }
  }

  // ---------------------------------------------------------------- overshadowed rules

  /** A redirect rule overshadows a later rule with a subset of its conditions. */
  predicate Shadows(r: Rule, s: Rule) {
    Redirects(r) && IsSuperset(r.conditions, s.conditions)
  }

  lemma ShadowsTransitive()
    ensures GreedyFilter.Transitive(Shadows)
  {
    forall a, b, c | Shadows(a, b) && Shadows(b, c) ensures Shadows(a, c) {
      SupersetTransitive(a.conditions, b.conditions, c.conditions);
    }
  }

  /** The simple specification: of the first n rules, those that no earlier redirect rule of the
      input, kept or not, overshadows. */
  function Survivors(rules: seq<Rule>, n: nat): seq<Rule>
    requires n <= |rules|
  {
    GreedyFilter.Kept(Shadows, rules, n)
  }

  predicate Overshadowed(rules: seq<Rule>, j: nat)
    requires j < |rules|
  {
    GreedyFilter.Dropped(Shadows, rules, j)
  }

  /** The inner loop: does a kept redirect rule overshadow the rule? */
  method RuleIsOvershadowed(kept: seq<Rule>, rule: Rule) returns (ruleIsOvershadowed: bool)
    ensures ruleIsOvershadowed <==> exists r :: r in kept && Shadows(r, rule)
  {
    for k := 0 to |kept|
      invariant forall m :: 0 <= m < k ==> !Shadows(kept[m], rule)
    {
      var cfg := FindRedirectActionConfig(kept[k].actions);
      if cfg.None? {
        assert !Shadows(kept[k], rule);
        continue;
      }
      var superset := IsSupersetConditions(kept[k].conditions, rule.conditions);
      assert superset == Shadows(kept[k], rule);
      if superset {
        assert kept[k] in kept;
        return true;
      }
    }
    ruleIsOvershadowed := false;
  }

  /** The greedy pass compares only with rules already kept, and still computes the simple
      specification. */
  method OmitOvershadowedRules(rules: seq<Rule>) returns (optimized: seq<Rule>)
    ensures optimized == Survivors(rules, |rules|)
  {
    optimized := [];
    for n := 0 to |rules|
      invariant optimized == Survivors(rules, n)
    {
      var ruleIsOvershadowed := RuleIsOvershadowed(optimized, rules[n]);
      ShadowsTransitive();
      GreedyFilter.KeptElementsSuffice(Shadows, rules, n);
      if !ruleIsOvershadowed {
        optimized := optimized + [rules[n]];
      }
    }
  }

  /** Guards for every pair the pass may act on. */
  ghost predicate GuardedRules(rules: seq<Rule>) {
    && (forall r :: r in rules ==> Shaped(r.conditions))
    && (forall i, j :: 0 <= i < j < |rules| && Shadows(rules[i], rules[j]) ==>
          HostGuard(rules[i].conditions, rules[j].conditions) && PathGuard(rules[i].conditions, rules[j].conditions))
  }

  /** Shaped rules with glob paths and no host regular expression on redirect rules are guarded. */
  lemma GlobRulesAreGuarded(rules: seq<Rule>)
    requires forall r :: r in rules ==> Shaped(r.conditions) && PathRegexes(r.conditions) == {}
    requires forall r :: r in rules && Redirects(r) ==> HostRegexes(r.conditions) == {}
    ensures GuardedRules(rules)
  {
    forall i, j | 0 <= i < j < |rules| && Shadows(rules[i], rules[j])
      ensures HostGuard(rules[i].conditions, rules[j].conditions) && PathGuard(rules[i].conditions, rules[j].conditions)
    {
      assert rules[i] in rules && rules[j] in rules;
    }
  }

  /** Dropping rules whose requests an earlier rule catches does not change any selection. */
  lemma {:induction false} CaughtRulesDoNotMatter(sem: Semantics, rel: (Rule, Rule) -> bool, rules: seq<Rule>, n: nat, q: Request)
    requires n <= |rules|
    requires forall j: nat :: j < n && GreedyFilter.Dropped(rel, rules, j) ==>
               !ConditionsMatch(sem, rules[j].conditions, q) || Select(sem, rules[..j], q).Some?
    ensures Select(sem, GreedyFilter.Kept(rel, rules, n), q) == Select(sem, rules[..n], q)
  {
    if n > 0 {
      CaughtRulesDoNotMatter(sem, rel, rules, n - 1, q);
      var last, kept := rules[n - 1], GreedyFilter.Kept(rel, rules, n - 1);
      assert rules[..n] == rules[..n - 1] + [last];
      SelectSnoc(sem, rules[..n - 1], last, q);
      SelectSnoc(sem, kept, last, q);
      assert kept + [] == kept;
    }
  }

  /** Dropping the overshadowed rules does not change which rule any request selects. */
  lemma SurvivorsPreserveMeaning(sem: Semantics, rules: seq<Rule>, q: Request)
    requires GuardedRules(rules) && q.HasAbsolutePath()
    ensures Select(sem, Survivors(rules, |rules|), q) == Select(sem, rules, q)
  {
    forall j: nat | j < |rules| && Overshadowed(rules, j)
      ensures !ConditionsMatch(sem, rules[j].conditions, q) || Select(sem, rules[..j], q).Some?
    {
      if ConditionsMatch(sem, rules[j].conditions, q) {
        OvershadowedIsCaughtEarlier(sem, rules, j, q);
      }
    }
    CaughtRulesDoNotMatter(sem, Shadows, rules, |rules|, q);
    assert rules[..|rules|] == rules;
  }

  lemma OvershadowedIsCaughtEarlier(sem: Semantics, rules: seq<Rule>, j: nat, q: Request)
    requires j < |rules| && GuardedRules(rules) && q.HasAbsolutePath()
    requires Overshadowed(rules, j) && ConditionsMatch(sem, rules[j].conditions, q)
    ensures Select(sem, rules[..j], q).Some?
  {
    var i :| 0 <= i < j && Shadows(rules[i], rules[j]);
    assert rules[i] in rules && rules[j] in rules;
    GuardedSupersetIncludes(rules[i].conditions, rules[j].conditions, sem, q);
    SelectFinds(sem, rules[..j], q);
    assert rules[i] == rules[..j][i];
  }

  ghost predicate KeepsMeaning(rules: seq<Rule>) {
    forall sem: Semantics, q: Request :: q.HasAbsolutePath() ==> Select(sem, Survivors(rules, |rules|), q) == Select(sem, rules, q)
  }

  ghost predicate Satisfiable(cs: seq<Condition>) {
    exists sem: Semantics, q: Request :: q.HasAbsolutePath() && ConditionsMatch(sem, cs, q)
  }

  ghost predicate GuardedFamily(family: iset<Rule>) {
    forall r, s :: r in family && s in family && Shadows(r, s) ==>
      HostGuard(r.conditions, s.conditions) && PathGuard(r.conditions, s.conditions)
  }

  lemma PairSurvivors(r: Rule, s: Rule)
    requires Shadows(r, s)
    ensures Survivors([r, s], 2) == [r]
  {
    assert Survivors([r, s], 0) == [] && !Overshadowed([r, s], 0);
    assert Survivors([r, s], 1) == [r];
    assert Shadows([r, s][0], [r, s][1]);
    assert Overshadowed([r, s], 1);
  }

  lemma UnguardedPairChangesMeaning(r: Rule, s: Rule)
    requires Shaped(r.conditions) && Shaped(s.conditions) && Shadows(r, s) && Satisfiable(s.conditions)
    requires !HostGuard(r.conditions, s.conditions) || !PathGuard(r.conditions, s.conditions)
    ensures !KeepsMeaning([r, s])
  {
    var sem0: Semantics, q0: Request :| q0.HasAbsolutePath() && ConditionsMatch(sem0, s.conditions, q0);
    var sem, q := UnguardedCounterexample(r.conditions, s.conditions, sem0, q0);
    PairSurvivors(r, s);
    SelectSnoc(sem, [], r, q);
    SelectSnoc(sem, [r], s, q);
    assert [] + [r] == [r] && [r] + [s] == [r, s];
  }

  lemma GuardedFamilyGuardsLists(family: iset<Rule>, rules: seq<Rule>)
    requires (forall r :: r in family ==> Shaped(r.conditions)) && GuardedFamily(family)
    requires forall r :: r in rules ==> r in family
    ensures GuardedRules(rules)
  {
    forall i, j | 0 <= i < j < |rules| && Shadows(rules[i], rules[j])
      ensures HostGuard(rules[i].conditions, rules[j].conditions) && PathGuard(rules[i].conditions, rules[j].conditions)
    {
      assert rules[i] in rules && rules[j] in rules;
    }
  }

  lemma UnguardedFamilyFails(family: iset<Rule>) returns (rules: seq<Rule>)
    requires (forall r :: r in family ==> Shaped(r.conditions) && Satisfiable(r.conditions)) && !GuardedFamily(family)
    ensures (forall r :: r in rules ==> r in family) && !KeepsMeaning(rules)
  {
    var r, s :| r in family && s in family && Shadows(r, s)
                && !(HostGuard(r.conditions, s.conditions) && PathGuard(r.conditions, s.conditions));
    UnguardedPairChangesMeaning(r, s);
    rules := [r, s];
  }

  lemma GuardedKeepsMeaning(rules: seq<Rule>)
    requires GuardedRules(rules)
    ensures KeepsMeaning(rules)
  {
    forall sem: Semantics, q: Request | q.HasAbsolutePath()
      ensures Select(sem, Survivors(rules, |rules|), q) == Select(sem, rules, q)
    {
      SurvivorsPreserveMeaning(sem, rules, q);
    }
  }

  /** Exactly which rules the pass may be given: it keeps the meaning of every list of rules from a
      family if and only if, in the family, every pair it may act on is guarded. */
  lemma KeepsMeaningExactlyOnGuardedFamilies(family: iset<Rule>)
    requires forall r :: r in family ==> Shaped(r.conditions) && Satisfiable(r.conditions)
    ensures (forall rules: seq<Rule> :: (forall r :: r in rules ==> r in family) ==> KeepsMeaning(rules)) <==> GuardedFamily(family)
  {
    if GuardedFamily(family) {
      forall rules: seq<Rule> | forall r :: r in rules ==> r in family ensures KeepsMeaning(rules) {
        GuardedFamilyGuardsLists(family, rules);
        GuardedKeepsMeaning(rules);
      }
    } else {
      var rules := UnguardedFamilyFails(family);
    }
  }

  const REGEX_HOST := Condition(HostHeader, Some(Patterns([], ["a.*"])), None, "")
  const GLOB_HOST := Condition(HostHeader, Some(Patterns(["b"], [])), None, "")
  const TO_HTTPS := RedirectConfig(None, None, Some("443"), Some("HTTPS"), None, "HTTP_301")

  /** The host guard is not idle: a redirect rule with a host regular expression makes the pass
      drop a rule that serves another host. */
  lemma HostRegexBreaksMeaning(sem: Semantics, q: Request)
    requires q.host == "b" && !sem.hostRegex("a.*", "b")
    ensures var rules := [Rule([REGEX_HOST], [Action(Redirect, Some(TO_HTTPS), "")], ""),
                          Rule([GLOB_HOST], [Action(Forward, None, "tg")], "")];
            && (forall r :: r in rules ==> Shaped(r.conditions))
            && Select(sem, rules, q) == Some(rules[1])
            && Select(sem, Survivors(rules, 2), q) == None
  {
    var first := Rule([REGEX_HOST], [Action(Redirect, Some(TO_HTTPS), "")], "");
    var second := Rule([GLOB_HOST], [Action(Forward, None, "tg")], "");
    var rules := [first, second];
    assert !ConditionsMatch(sem, first.conditions, q) by {
      assert !ConditionMatches(sem, REGEX_HOST, q);
      assert REGEX_HOST in first.conditions;
    }
    assert ConditionsMatch(sem, second.conditions, q) by {
      Glob.MatchesOwnText(Text.Lower("b"));
      assert "b" in GLOB_HOST.hostConfig.value.values && HostGlobMatches("b", q.host);
    }
    SelectConcat(sem, [first], [second], q);
    assert rules == [first] + [second];
    PairSurvivors(first, second);
  }

  const REGEX_PATH := Condition(PathPattern, None, Some(Patterns([], ["/*"])), "")
  const GLOB_PATH := Condition(PathPattern, None, Some(Patterns(["/a"], [])), "")

  /** The path guard is not idle either: a regular expression for a run of slashes is spelled like the
      glob that matches everything, and is taken for it. */
  lemma PathRegexBreaksMeaning(sem: Semantics, q: Request)
    requires q.path == "/a" && !sem.pathRegex("/*", "/a")
    ensures var rules := [Rule([REGEX_PATH], [Action(Redirect, Some(TO_HTTPS), "")], ""),
                          Rule([GLOB_PATH], [Action(Forward, None, "tg")], "")];
            && (forall r :: r in rules ==> Shaped(r.conditions))
            && Select(sem, rules, q) == Some(rules[1])
            && Select(sem, Survivors(rules, 2), q) == None
  {
    var first := Rule([REGEX_PATH], [Action(Redirect, Some(TO_HTTPS), "")], "");
    var second := Rule([GLOB_PATH], [Action(Forward, None, "tg")], "");
    assert !ConditionsMatch(sem, first.conditions, q) by {
      assert !ConditionMatches(sem, REGEX_PATH, q);
      assert REGEX_PATH in first.conditions;
    }
    assert ConditionsMatch(sem, second.conditions, q) by {
      Glob.MatchesOwnText("/a");
      assert "/a" in GLOB_PATH.pathConfig.value.values;
    }
    assert Shadows(first, second) by {
      assert first.actions[0].kind.Redirect?;
      var c := REGEX_PATH;
      var texts := TextsOf(c.pathConfig.value);
      assert texts == ["/*"] && "/*" in texts && c in first.conditions && c.IsPath();
      assert "/*" in PathTexts(first.conditions);
    }
    PairSurvivors(first, second);
    SelectSnoc(sem, [], first, q);
    SelectSnoc(sem, [first], second, q);
    assert [] + [first] == [first] && [first] + [second] == [first, second];
  }

  // ---------------------------------------------------------------- infinite redirects

  predicate Stays(component: Option<string>, placeholder: string, accepted: set<string>) {
    component.None? || component.value == placeholder || component.value in accepted
  }

  predicate InfiniteRedirect(port: int, protocol: string, rule: Rule) {
    var cfg := RedirectOf(rule.actions);
    && cfg.Some?
    && (forall c :: c in rule.conditions && c.IsPath() ==> c.pathConfig.value.regexValues == [])
    && Stays(cfg.value.host, "#{host}", HostGlobs(rule.conditions))
    && Stays(cfg.value.path, "/#{path}", PathGlobs(rule.conditions))
    && Stays(cfg.value.port, "#{port}", {Text.Decimal(port)})
    && Stays(cfg.value.protocol, "#{protocol}", {protocol})
    && Stays(cfg.value.query, "#{query}", {})
  }

  method IsInfiniteRedirectRule(port: int, protocol: string, rule: Rule) returns (infinite: bool)
    ensures infinite == InfiniteRedirect(port, protocol, rule)
  {
    var found := FindRedirectActionConfig(rule.actions);
    if found.None? {
      return false;
    }
    var cfg := found.value;
    var cs := rule.conditions;
    var ruleHosts: set<string>, rulePaths: set<string> := {}, {};
    for i := 0 to |cs|
      invariant ruleHosts == HostGlobs(cs[..i]) && rulePaths == PathGlobs(cs[..i])
      invariant forall k :: 0 <= k < i && cs[k].IsPath() ==> cs[k].pathConfig.value.regexValues == []
    {
      var c := cs[i];
      assert cs[..i + 1] == cs[..i] + [c];
      if c.IsHost() {
        ruleHosts := Insert(ruleHosts, c.hostConfig.value.values);
      } else if c.IsPath() {
        if |c.pathConfig.value.regexValues| > 0 {
          return false;
        }
        rulePaths := Insert(rulePaths, c.pathConfig.value.values);
      }
    }
    assert cs[..|cs|] == cs;
    if cfg.host.Some? && cfg.host.value != "#{host}" && cfg.host.value !in ruleHosts {
      return false;
    }
    if cfg.path.Some? && cfg.path.value != "/#{path}" && cfg.path.value !in rulePaths {
      return false;
    }
    if cfg.port.Some? && cfg.port.value != "#{port}" && cfg.port.value != Text.Decimal(port) {
      return false;
    }
    if cfg.protocol.Some? && cfg.protocol.value != "#{protocol}" && cfg.protocol.value != protocol {
      return false;
    }
    if cfg.query.Some? && cfg.query.value != "#{query}" {
      return false;
    }
    infinite := true;
  }

  function Expand(component: Option<string>, placeholder: string, current: string): string {
    if component.None? || component.value == placeholder then current else component.value
  }

  /** The request a client makes next when it follows the redirect. An absent component keeps
      the current value; the path placeholder stands for the path without its leading slash. */
  function Follow(cfg: RedirectConfig, q: Request): Request {
    Request(
      Expand(cfg.host, "#{host}", q.host),
      Expand(cfg.path, "/#{path}", if q.HasAbsolutePath() then q.path else "/" + q.path),
      Expand(cfg.port, "#{port}", q.port),
      Expand(cfg.protocol, "#{protocol}", q.protocol),
      Expand(cfg.query, "#{query}", q.query),
      q.rest)
  }

  /** The request made after following the redirect n times. */
  function FollowTimes(cfg: RedirectConfig, q: Request, n: nat): Request
    decreases n
  {
    if n == 0 then q else FollowTimes(cfg, Follow(cfg, q), n - 1)
  }

  predicate OnListener(q: Request, port: int, protocol: string) {
    q.port == Text.Decimal(port) && q.protocol == protocol
  }

  /** A rule reported as an infinite redirect sends every request it matches to a request on the
      same listener that it matches again, and that one to itself. */
  lemma RedirectTargetMatchesAgain(sem: Semantics, port: int, protocol: string, rule: Rule, q: Request)
    requires Shaped(rule.conditions) && InfiniteRedirect(port, protocol, rule)
    requires q.HasAbsolutePath() && OnListener(q, port, protocol) && ConditionsMatch(sem, rule.conditions, q)
    ensures var cfg := RedirectOf(rule.actions).value;
            var target := Follow(cfg, q);
            OnListener(target, port, protocol) && ConditionsMatch(sem, rule.conditions, target) && Follow(cfg, target) == target
  {
    var cfg := RedirectOf(rule.actions).value;
    var target := Follow(cfg, q);
    ShapedMeaning(sem, rule.conditions, q);
    ShapedMeaning(sem, rule.conditions, target);
    if target.host != q.host {
      Glob.MatchesOwnText(Text.Lower(target.host));
      assert HostGlobMatches(target.host, target.host);
    }
    if target.path != q.path {
      Glob.MatchesOwnText(target.path);
    }
  }

  lemma {:induction false} FixedPointRepeats(cfg: RedirectConfig, q: Request, n: nat)
    requires Follow(cfg, q) == q
    ensures FollowTimes(cfg, q, n) == q
  {
    if n > 0 {
      FixedPointRepeats(cfg, q, n - 1);
    }
  }

  /** So every request of the chain matches the rule again. */
  lemma EveryRedirectMatches(sem: Semantics, port: int, protocol: string, rule: Rule, q: Request, n: nat)
    requires Shaped(rule.conditions) && InfiniteRedirect(port, protocol, rule)
    requires q.HasAbsolutePath() && OnListener(q, port, protocol) && ConditionsMatch(sem, rule.conditions, q)
    ensures var t := FollowTimes(RedirectOf(rule.actions).value, q, n);
            OnListener(t, port, protocol) && ConditionsMatch(sem, rule.conditions, t)
  {
    RedirectTargetMatchesAgain(sem, port, protocol, rule, q);
    var cfg := RedirectOf(rule.actions).value;
    if n > 0 {
      FixedPointRepeats(cfg, Follow(cfg, q), n - 1);
    }
  }

  /** The rule at index i is the first that matches q. */
  ghost predicate SelectedAt(sem: Semantics, rules: seq<Rule>, i: nat, q: Request)
    requires i < |rules|
  {
    ConditionsMatch(sem, rules[i].conditions, q) && Select(sem, rules[..i], q).None?
  }

  /** Matching again is not yet looping, because an earlier rule may catch the new request. A
      request selected by a reported rule is redirected by that rule for ever if and only if no
      earlier rule matches the redirect target. */
  lemma LoopsExactlyWhenTargetEscapesEarlierRules(sem: Semantics, port: int, protocol: string, rules: seq<Rule>, i: nat, q: Request)
    requires i < |rules| && Shaped(rules[i].conditions) && InfiniteRedirect(port, protocol, rules[i])
    requires q.HasAbsolutePath() && OnListener(q, port, protocol) && SelectedAt(sem, rules, i, q)
    ensures var cfg := RedirectOf(rules[i].actions).value;
            (forall n: nat :: SelectedAt(sem, rules, i, FollowTimes(cfg, q, n))) <==>
              Select(sem, rules[..i], Follow(cfg, q)).None?
  {
    var cfg := RedirectOf(rules[i].actions).value;
    RedirectTargetMatchesAgain(sem, port, protocol, rules[i], q);
    assert FollowTimes(cfg, q, 1) == Follow(cfg, q);
    forall n: nat ensures FollowTimes(cfg, q, n) == if n == 0 then q else Follow(cfg, q) {
      FollowSettles(cfg, q, n);
    }
  }

  lemma FollowSettles(cfg: RedirectConfig, q: Request, n: nat)
    requires Follow(cfg, Follow(cfg, q)) == Follow(cfg, q)
    ensures FollowTimes(cfg, q, n) == if n == 0 then q else Follow(cfg, q)
  {
    if n > 0 {
      FixedPointRepeats(cfg, Follow(cfg, q), n - 1);
    }
  }

  function PathRule(paths: seq<string>, action: Action): Rule {
    Rule([Condition(PathPattern, None, Some(Patterns(paths, [])), "")], [action], "")
  }

  lemma PathRuleMatches(sem: Semantics, paths: seq<string>, action: Action, q: Request)
    ensures ConditionsMatch(sem, PathRule(paths, action).conditions, q) <==> exists v :: v in paths && Glob.Matches(v, q.path)
  {
    var c := PathRule(paths, action).conditions[0];
    assert ConditionMatches(sem, c, q) <==> PathMatches(sem, c.pathConfig.value, q.path);
  }

  const TO_FOO := RedirectConfig(None, Some("/foo"), None, None, None, "HTTP_301")
  const FORWARD_FOO := PathRule(["/foo"], Action(Forward, None, "tg"))
  const REDIRECT_TO_FOO := PathRule(["/foo", "/bar"], Action(Redirect, Some(TO_FOO), ""))

  lemma RedirectToFooIsInfinite(port: int, protocol: string)
    ensures InfiniteRedirect(port, protocol, REDIRECT_TO_FOO) && !InfiniteRedirect(port, protocol, FORWARD_FOO)
  {
    assert REDIRECT_TO_FOO.actions[0].kind.Redirect? && RedirectOf(REDIRECT_TO_FOO.actions) == Some(TO_FOO);
    assert !FORWARD_FOO.actions[0].kind.Redirect? && FORWARD_FOO.actions[1..] == [];
    assert "/foo" in REDIRECT_TO_FOO.conditions[0].pathConfig.value.values && REDIRECT_TO_FOO.conditions[0].IsPath();
    assert "/foo" in PathGlobs(REDIRECT_TO_FOO.conditions);
  }

  /** A rule that is omitted although its redirect ends: "/bar" goes to "/foo", which the first
      rule serves, and after the omission no rule serves "/bar". */
  lemma OmittedRedirectMayEnd(sem: Semantics, port: int, protocol: string, q: Request)
    requires q.path == "/bar" && OnListener(q, port, protocol)
    ensures var rules := [FORWARD_FOO, REDIRECT_TO_FOO];
            && InfiniteRedirect(port, protocol, REDIRECT_TO_FOO)
            && Select(sem, rules, q) == Some(REDIRECT_TO_FOO)
            && Select(sem, rules, Follow(TO_FOO, q)) == Some(FORWARD_FOO)
            && Select(sem, Finite(port, protocol, rules), q) == None
  {
    RedirectToFooIsInfinite(port, protocol);
    var target := Follow(TO_FOO, q);
    Glob.LiteralMatchesItself("/foo", "/bar");
    Glob.LiteralMatchesItself("/foo", "/foo");
    Glob.LiteralMatchesItself("/bar", "/bar");
    assert !ConditionsMatch(sem, FORWARD_FOO.conditions, q) && ConditionsMatch(sem, FORWARD_FOO.conditions, target) by {
      assert "/foo" in ["/foo"];
      PathRuleMatches(sem, ["/foo"], Action(Forward, None, "tg"), q);
      PathRuleMatches(sem, ["/foo"], Action(Forward, None, "tg"), target);
    }
    assert ConditionsMatch(sem, REDIRECT_TO_FOO.conditions, q) by {
      assert ["/foo", "/bar"][1] == "/bar";
      PathRuleMatches(sem, ["/foo", "/bar"], Action(Redirect, Some(TO_FOO), ""), q);
    }
    SelectSnoc(sem, [], FORWARD_FOO, q);
    SelectSnoc(sem, [], FORWARD_FOO, target);
    assert [] + [FORWARD_FOO] == [FORWARD_FOO];
    SelectSnoc(sem, [FORWARD_FOO], REDIRECT_TO_FOO, q);
    SelectSnoc(sem, [FORWARD_FOO], REDIRECT_TO_FOO, target);
    assert [FORWARD_FOO] + [REDIRECT_TO_FOO] == [FORWARD_FOO, REDIRECT_TO_FOO];
    assert FiniteUpTo(port, protocol, [FORWARD_FOO, REDIRECT_TO_FOO], 1) == [FORWARD_FOO];
    assert Finite(port, protocol, [FORWARD_FOO, REDIRECT_TO_FOO]) == [FORWARD_FOO];
  }

  // ---------------------------------------------------------------- the optimizer

  /** The rules among the first n that are not infinite redirects, in order. */
  function FiniteUpTo(port: int, protocol: string, rules: seq<Rule>, n: nat): seq<Rule>
    requires n <= |rules|
  {
    if n == 0 then []
    else FiniteUpTo(port, protocol, rules, n - 1)
         + (if InfiniteRedirect(port, protocol, rules[n - 1]) then [] else [rules[n - 1]])
  }

  function Finite(port: int, protocol: string, rules: seq<Rule>): seq<Rule> {
    FiniteUpTo(port, protocol, rules, |rules|)
  }

  lemma {:induction false} FiniteElements(port: int, protocol: string, rules: seq<Rule>, n: nat, r: Rule)
    requires n <= |rules|
    ensures r in FiniteUpTo(port, protocol, rules, n) <==> r in rules[..n] && !InfiniteRedirect(port, protocol, r)
  {
    if n > 0 {
      var last := rules[n - 1];
      FiniteElements(port, protocol, rules, n - 1, r);
      assert rules[..n] == rules[..n - 1] + [last];
      assert r in FiniteUpTo(port, protocol, rules, n) <==>
          r in FiniteUpTo(port, protocol, rules, n - 1) || (r == last && !InfiniteRedirect(port, protocol, last));
    }
  }

  method OmitInfiniteRedirectRules(port: int, protocol: string, rules: seq<Rule>) returns (optimized: seq<Rule>)
    ensures optimized == Finite(port, protocol, rules)
  {
    optimized := [];
    for i := 0 to |rules|
      invariant optimized == FiniteUpTo(port, protocol, rules, i)
    {
      var infinite := IsInfiniteRedirectRule(port, protocol, rules[i]);
      assert FiniteUpTo(port, protocol, rules, i + 1) == optimized + if infinite then [] else [rules[i]];
      if infinite {
        continue;
      }
      optimized := optimized + [rules[i]];
    }
  }

  function Optimized(port: int, protocol: string, rules: seq<Rule>): seq<Rule> {
    var finite := Finite(port, protocol, rules);
    Survivors(finite, |finite|)
  }

  method Optimize(port: int, protocol: string, rules: seq<Rule>) returns (optimized: seq<Rule>)
    ensures optimized == Optimized(port, protocol, rules)
  {
    optimized := OmitInfiniteRedirectRules(port, protocol, rules);
    optimized := OmitOvershadowedRules(optimized);
  }

  lemma {:induction false} SelectFinite(sem: Semantics, port: int, protocol: string, rules: seq<Rule>, n: nat, q: Request)
    requires n <= |rules|
    requires Select(sem, rules[..n], q).Some? ==> !InfiniteRedirect(port, protocol, Select(sem, rules[..n], q).value)
    ensures Select(sem, FiniteUpTo(port, protocol, rules, n), q) == Select(sem, rules[..n], q)
  {
    if n > 0 {
      var last := rules[n - 1];
      var finite := FiniteUpTo(port, protocol, rules, n - 1);
      assert rules[..n] == rules[..n - 1] + [last];
      assert FiniteUpTo(port, protocol, rules, n) == if InfiniteRedirect(port, protocol, last) then finite else finite + [last];
      SelectSnoc(sem, rules[..n - 1], last, q);
      SelectFinite(sem, port, protocol, rules, n - 1, q);
      SelectSnoc(sem, finite, last, q);
    }
  }

  /** The whole optimizer keeps the selection of every request that does not fall into a reported
      infinite redirect. */
  lemma OptimizePreservesMeaning(sem: Semantics, port: int, protocol: string, rules: seq<Rule>, q: Request)
    requires GuardedRules(Finite(port, protocol, rules)) && q.HasAbsolutePath()
    requires Select(sem, rules, q).Some? ==> !InfiniteRedirect(port, protocol, Select(sem, rules, q).value)
    ensures Select(sem, Optimized(port, protocol, rules), q) == Select(sem, rules, q)
  {
    var finite := Finite(port, protocol, rules);
    assert rules[..|rules|] == rules;
    SelectFinite(sem, port, protocol, rules, |rules|, q);
    SurvivorsPreserveMeaning(sem, finite, q);
  }

  lemma {:induction false} NothingInfiniteIsIdentity(port: int, protocol: string, rules: seq<Rule>, n: nat)
    requires n <= |rules| && forall r :: r in rules ==> !InfiniteRedirect(port, protocol, r)
    ensures FiniteUpTo(port, protocol, rules, n) == rules[..n]
  {
    if n > 0 {
      NothingInfiniteIsIdentity(port, protocol, rules, n - 1);
      assert rules[n - 1] in rules;
      assert FiniteUpTo(port, protocol, rules, n) == FiniteUpTo(port, protocol, rules, n - 1) + [rules[n - 1]];
    }
  }

  /** Optimizing an optimized list changes nothing. */
  lemma OptimizeIdempotent(port: int, protocol: string, rules: seq<Rule>)
    ensures Optimized(port, protocol, Optimized(port, protocol, rules)) == Optimized(port, protocol, rules)
  {
    var finite := Finite(port, protocol, rules);
    var once := Optimized(port, protocol, rules);
    forall r | r in once ensures !InfiniteRedirect(port, protocol, r) {
      GreedyFilter.KeptElements(Shadows, finite, |finite|, r);
      FiniteElements(port, protocol, rules, |rules|, r);
    }
    NothingInfiniteIsIdentity(port, protocol, once, |once|);
    assert once[..|once|] == once;
    ShadowsTransitive();
    GreedyFilter.KeptIdempotent(Shadows, finite);
  }
}
