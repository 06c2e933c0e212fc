/** Listener rules of an Application Load Balancer and what they mean: which requests a rule
    matches, and which rule a listener selects for a request. The meaning of regular
    expressions and of the remaining condition kinds is left open: it is a parameter. */
module ListenerRules {
  import opened Options
  import Glob
  import Text

  datatype Field = HostHeader | PathPattern | HttpHeader | HttpRequestMethod | QueryString | SourceIP

  datatype Patterns = Patterns(values: seq<string>, regexValues: seq<string>)

  /** `detail` stands for the configurations of the other condition kinds. */
  datatype Condition = Condition(field: Field, hostConfig: Option<Patterns>, pathConfig: Option<Patterns>, detail: string)
  {
    predicate IsHost() {
      field.HostHeader? && hostConfig.Some?
    }

    predicate IsPath() {
      field.PathPattern? && pathConfig.Some?
    }
  }

  datatype RedirectConfig = RedirectConfig(
    host: Option<string>, path: Option<string>, port: Option<string>,
    protocol: Option<string>, query: Option<string>, statusCode: string)

  datatype ActionType = Forward | Redirect | FixedResponse | Authenticate

  datatype Action = Action(kind: ActionType, redirectConfig: Option<RedirectConfig>, detail: string)

  /** `extras` stands for the transforms and tags a rule carries along. */
  datatype Rule = Rule(conditions: seq<Condition>, actions: seq<Action>, extras: string)

  /** `rest` stands for the headers other than Host, the method and the source address. */
  datatype Request = Request(host: string, path: string, port: string, protocol: string, query: string, rest: string)
  {
    predicate HasAbsolutePath() {
      path != "" && path[0] == '/'
    }
  }

  /** One reading of everything this model does not interpret. */
  datatype Semantics = Semantics(
    hostRegex: (string, string) -> bool,
    pathRegex: (string, string) -> bool,
    other: (Condition, string, string) -> bool)

  /** Host names are compared without regard to case. */
  predicate HostGlobMatches(pattern: string, host: string) {
    Glob.Matches(Text.Lower(pattern), Text.Lower(host))
  }

  ghost predicate HostMatches(sem: Semantics, p: Patterns, host: string) {
    || (exists v :: v in p.values && HostGlobMatches(v, host))
    || (exists v :: v in p.regexValues && sem.hostRegex(v, host))
  }

  ghost predicate PathMatches(sem: Semantics, p: Patterns, path: string) {
    || (exists v :: v in p.values && Glob.Matches(v, path))
    || (exists v :: v in p.regexValues && sem.pathRegex(v, path))
  }

  ghost predicate ConditionMatches(sem: Semantics, c: Condition, q: Request) {
    if c.IsHost() then HostMatches(sem, c.hostConfig.value, q.host)
    else if c.IsPath() then PathMatches(sem, c.pathConfig.value, q.path)
    else sem.other(c, q.query, q.rest)
  }

  ghost predicate ConditionsMatch(sem: Semantics, cs: seq<Condition>, q: Request) {
    forall c :: c in cs ==> ConditionMatches(sem, c, q)
  }

  /** The rule a listener applies: the first of the list that matches. */
  ghost function Select(sem: Semantics, rules: seq<Rule>, q: Request): Option<Rule> {
    if rules == [] then None
    else if ConditionsMatch(sem, rules[0].conditions, q) then Some(rules[0])
    else Select(sem, rules[1..], q)
  }

  lemma {:induction false} SelectConcat(sem: Semantics, a: seq<Rule>, b: seq<Rule>, q: Request)
    ensures Select(sem, a + b, q) == if Select(sem, a, q).Some? then Select(sem, a, q) else Select(sem, b, q)
  {
    if a == [] {
      assert a + b == b;
    } else {
      SelectConcat(sem, a[1..], b, q);
      assert (a + b)[1..] == a[1..] + b;
    }
  }

  lemma SelectSnoc(sem: Semantics, a: seq<Rule>, r: Rule, q: Request)
    ensures Select(sem, a + [r], q) ==
              if Select(sem, a, q).Some? then Select(sem, a, q)
              else if ConditionsMatch(sem, r.conditions, q) then Some(r) else None
  {
    SelectConcat(sem, a, [r], q);
    assert [r][1..] == [];
  }

  /** A rule is selected exactly when some rule matches, and then it is one of the matching rules. */
  lemma {:induction false} SelectFinds(sem: Semantics, rules: seq<Rule>, q: Request)
    ensures Select(sem, rules, q).Some? <==> exists r :: r in rules && ConditionsMatch(sem, r.conditions, q)
    ensures Select(sem, rules, q).Some? ==>
              Select(sem, rules, q).value in rules && ConditionsMatch(sem, Select(sem, rules, q).value.conditions, q)
  {
    if rules != [] {
      SelectFinds(sem, rules[1..], q);
      assert rules == [rules[0]] + rules[1..];
    }
  }

  /** Conditions as `buildRuleConditions` emits them: at most one host and at most one path
      condition, each with either glob values or regular expressions, never both or neither. */
  predicate Shaped(cs: seq<Condition>) {
    && (forall i, j :: 0 <= i < |cs| && 0 <= j < |cs| && cs[i].IsHost() && cs[j].IsHost() ==> i == j)
    && (forall i, j :: 0 <= i < |cs| && 0 <= j < |cs| && cs[i].IsPath() && cs[j].IsPath() ==> i == j)
    && (forall c :: c in cs && c.IsHost() ==> Exclusive(c.hostConfig.value))
    && (forall c :: c in cs && c.IsPath() ==> Exclusive(c.pathConfig.value))
  }

  predicate Exclusive(p: Patterns) {
    (p.values == []) != (p.regexValues == [])
  }

  function HostGlobs(cs: seq<Condition>): set<string> {
    set c, v | c in cs && c.IsHost() && v in c.hostConfig.value.values :: v
  }

  function HostRegexes(cs: seq<Condition>): set<string> {
    set c, v | c in cs && c.IsHost() && v in c.hostConfig.value.regexValues :: v
  }

  function PathGlobs(cs: seq<Condition>): set<string> {
    set c, v | c in cs && c.IsPath() && v in c.pathConfig.value.values :: v
  }

  function PathRegexes(cs: seq<Condition>): set<string> {
    set c, v | c in cs && c.IsPath() && v in c.pathConfig.value.regexValues :: v
  }

  ghost predicate OthersMatch(sem: Semantics, cs: seq<Condition>, q: Request) {
    forall c :: c in cs && !c.IsHost() && !c.IsPath() ==> sem.other(c, q.query, q.rest)
  }

  ghost predicate HostsMatch(sem: Semantics, globs: set<string>, regexes: set<string>, host: string) {
    || (globs == {} && regexes == {})
    || (exists v :: v in globs && HostGlobMatches(v, host))
    || (exists v :: v in regexes && sem.hostRegex(v, host))
  }

  ghost predicate PathsMatch(sem: Semantics, globs: set<string>, regexes: set<string>, path: string) {
    || (globs == {} && regexes == {})
    || (exists v :: v in globs && Glob.Matches(v, path))
    || (exists v :: v in regexes && sem.pathRegex(v, path))
  }

  /** For shaped conditions the meaning depends on four pattern sets and the other conditions:
      hosts, paths and the rest are three independent tests. */
  lemma ShapedMeaning(sem: Semantics, cs: seq<Condition>, q: Request)
    requires Shaped(cs)
    ensures ConditionsMatch(sem, cs, q) <==>
              && HostsMatch(sem, HostGlobs(cs), HostRegexes(cs), q.host)
              && PathsMatch(sem, PathGlobs(cs), PathRegexes(cs), q.path)
              && OthersMatch(sem, cs, q)
  {
    HostPart(sem, cs, q);
    PathPart(sem, cs, q);
    if ConditionsMatch(sem, cs, q) {
      assert OthersMatch(sem, cs, q);
    } else {
      var c :| c in cs && !ConditionMatches(sem, c, q);
    }
  }

  lemma HostPart(sem: Semantics, cs: seq<Condition>, q: Request)
    requires Shaped(cs)
    ensures HostsMatch(sem, HostGlobs(cs), HostRegexes(cs), q.host) <==>
              forall c :: c in cs && c.IsHost() ==> ConditionMatches(sem, c, q)
  {
    if c :| c in cs && c.IsHost() {
      var p := c.hostConfig.value;
      assert forall d :: d in cs && d.IsHost() ==> d == c;
      assert HostGlobs(cs) == set v | v in p.values;
      assert HostRegexes(cs) == set v | v in p.regexValues;
      if p.values == [] {
        assert p.regexValues[0] in HostRegexes(cs);
      } else {
        assert p.values[0] in HostGlobs(cs);
      }
    }
  }

  lemma PathPart(sem: Semantics, cs: seq<Condition>, q: Request)
    requires Shaped(cs)
    ensures PathsMatch(sem, PathGlobs(cs), PathRegexes(cs), q.path) <==>
              forall c :: c in cs && c.IsPath() ==> ConditionMatches(sem, c, q)
  {
    if c :| c in cs && c.IsPath() {
      var p := c.pathConfig.value;
      assert forall d :: d in cs && d.IsPath() ==> d == c;
      assert PathGlobs(cs) == set v | v in p.values;
      assert PathRegexes(cs) == set v | v in p.regexValues;
      if p.values == [] {
        assert p.regexValues[0] in PathRegexes(cs);
      } else {
        assert p.values[0] in PathGlobs(cs);
      }
    }
  }

  /** A rule as deployed: the listener tries rules by ascending priority number. */
  datatype ListenerRule = ListenerRule(priority: int, rule: Rule)

  /** What a listener does with deployed rules, whatever order they are stored in: among the
      matching rules it applies one whose priority number is smallest. */
  ghost predicate Applies(sem: Semantics, deployed: set<ListenerRule>, q: Request, r: ListenerRule) {
    && r in deployed
    && ConditionsMatch(sem, r.rule.conditions, q)
    && forall s :: s in deployed && ConditionsMatch(sem, s.rule.conditions, q) ==> r.priority <= s.priority
  }

  /** The priority loop of `buildListenerRules`: priorities count up from 1. */
  method AssignPriorities(rules: seq<Rule>) returns (deployed: seq<ListenerRule>)
    ensures |deployed| == |rules|
    ensures forall i :: 0 <= i < |rules| ==> deployed[i] == ListenerRule(i + 1, rules[i])
  {
    deployed := [];
    var priority := 1;
    for i := 0 to |rules|
      invariant priority == i + 1 && |deployed| == i
      invariant forall k :: 0 <= k < i ==> deployed[k] == ListenerRule(k + 1, rules[k])
    {
      deployed := deployed + [ListenerRule(priority, rules[i])];
      priority := priority + 1;
    }
  }

  /** The rules with consecutive priorities from `first` on. */
  function Numbered(rules: seq<Rule>, first: int): set<ListenerRule> {
    set i | 0 <= i < |rules| :: ListenerRule(first + i, rules[i])
  }

  lemma NumberedTail(rules: seq<Rule>, first: int)
    requires rules != []
    ensures Numbered(rules, first) == {ListenerRule(first, rules[0])} + Numbered(rules[1..], first + 1)
    ensures forall s :: s in Numbered(rules[1..], first + 1) ==> s.priority > first
  {
    var head, later := ListenerRule(first, rules[0]), Numbered(rules[1..], first + 1);
    assert head == ListenerRule(first + 0, rules[0]);
    forall s | s in Numbered(rules, first) ensures s == head || s in later {
      var i :| 0 <= i < |rules| && s == ListenerRule(first + i, rules[i]);
      assert i > 0 ==> s == ListenerRule(first + 1 + (i - 1), rules[1..][i - 1]);
    }
    forall s | s in later ensures s in Numbered(rules, first) && s.priority > first {
      var i :| 0 <= i < |rules[1..]| && s == ListenerRule(first + 1 + i, rules[1..][i]);
      assert s == ListenerRule(first + (i + 1), rules[i + 1]);
    }
  }

  /** Either the first rule matches and is the one applied, or the rest decides. */
  lemma AppliesTail(sem: Semantics, rules: seq<Rule>, first: int, q: Request, r: ListenerRule)
    requires rules != []
    ensures Applies(sem, Numbered(rules, first), q, r) <==>
              if ConditionsMatch(sem, rules[0].conditions, q) then r == ListenerRule(first, rules[0])
              else Applies(sem, Numbered(rules[1..], first + 1), q, r)
  {
    NumberedTail(rules, first);
  }

  /** With consecutive priorities, lowest-priority-number-wins is first match on the list: a deployed
      rule that applies is the first match, and there is one whenever there is a first match. */
  lemma {:induction false} PrioritiesGiveFirstMatch(sem: Semantics, rules: seq<Rule>, first: int, q: Request)
    ensures forall r :: Applies(sem, Numbered(rules, first), q, r) ==> Select(sem, rules, q) == Some(r.rule)
    ensures Select(sem, rules, q).Some? ==> exists r :: Applies(sem, Numbered(rules, first), q, r)
  {
    if rules != [] {
      PrioritiesGiveFirstMatch(sem, rules[1..], first + 1, q);
      forall r ensures Applies(sem, Numbered(rules, first), q, r) <==>
          if ConditionsMatch(sem, rules[0].conditions, q) then r == ListenerRule(first, rules[0])
          else Applies(sem, Numbered(rules[1..], first + 1), q, r)
      {
        AppliesTail(sem, rules, first, q, r);
      }
      if ConditionsMatch(sem, rules[0].conditions, q) {
        assert Applies(sem, Numbered(rules, first), q, ListenerRule(first, rules[0]));
      } else if Select(sem, rules[1..], q).Some? {
        var r :| Applies(sem, Numbered(rules[1..], first + 1), q, r);
        assert Applies(sem, Numbered(rules, first), q, r);
      }
    }
  }

  /** A host name without wildcards matches the same name in any case. */
  lemma HostsIgnoreCase(host: string, other: string)
    requires Glob.WildcardFree(host)
    ensures HostGlobMatches(host, other) <==> Text.Lower(host) == Text.Lower(other)
    ensures Text.Lower("aB-C.Z1") == "ab-c.z1"
  {
    var lower := Text.Lower(host);
    forall c | c in lower ensures c != '*' && c != '?' {
      var i :| 0 <= i < |lower| && lower[i] == c;
      assert host[i] in host && c == Text.LowerChar(host[i]);
    }
    Glob.LiteralMatchesItself(lower, Text.Lower(other));
  }
}
