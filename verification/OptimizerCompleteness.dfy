/** What the optimizer does find: redirects that loop, and rules that cannot be reached. */
module OptimizerCompleteness {
  import opened Options
  import opened ListenerRules
  import opened RuleOptimizer
  import Glob
  import GreedyFilter
  import Text

  // ---------------------------------------------------------------- looping redirects

  ghost predicate MatchesOnListener(sem: Semantics, port: int, protocol: string, cs: seq<Condition>, q: Request) {
    q.HasAbsolutePath() && OnListener(q, port, protocol) && ConditionsMatch(sem, cs, q)
  }

  /** The redirect sends every request the rule matches to that same request. */
  ghost predicate SendsToItself(port: int, protocol: string, rule: Rule, cfg: RedirectConfig) {
    forall sem: Semantics, q: Request :: MatchesOnListener(sem, port, protocol, rule.conditions, q) ==> Follow(cfg, q) == q
  }

  predicate Literal(v: string) {
    Glob.WildcardFree(v)
  }

  lemma HostStays(sem: Semantics, port: int, protocol: string, rule: Rule, cfg: RedirectConfig, q: Request)
    requires Shaped(rule.conditions) && SendsToItself(port, protocol, rule, cfg)
    requires MatchesOnListener(sem, port, protocol, rule.conditions, q)
    ensures Stays(cfg.host, "#{host}", HostGlobs(rule.conditions))
  {
    var cs := rule.conditions;
    ShapedMeaning(sem, cs, q);
    if cfg.host.Some? && cfg.host.value != "#{host}" {
      var h := cfg.host.value;
      var all := Semantics((p: string, s: string) => true, sem.pathRegex, sem.other);
      var elsewhere := q.(host := h + "x");
      ShapedMeaning(all, cs, elsewhere);
      if v :| v in HostGlobs(cs) && HostGlobMatches(v, q.host) {
        var own := q.(host := v);
        Glob.MatchesOwnText(Text.Lower(v));
        assert HostGlobMatches(v, own.host);
        ShapedMeaning(sem, cs, own);
        assert MatchesOnListener(sem, port, protocol, cs, own);
        assert Follow(cfg, own) == own;
      } else {
        assert |h + "x"| != |h| && Follow(cfg, elsewhere) != elsewhere;
        assert MatchesOnListener(all, port, protocol, cs, elsewhere);
        assert false;
      }
    }
  }

  lemma PathStays(sem: Semantics, port: int, protocol: string, rule: Rule, cfg: RedirectConfig, q: Request)
    requires Shaped(rule.conditions) && SendsToItself(port, protocol, rule, cfg) && PathRegexes(rule.conditions) == {}
    requires MatchesOnListener(sem, port, protocol, rule.conditions, q)
    requires forall v :: v in PathGlobs(rule.conditions) ==> v != "" && v[0] == '/'
    ensures Stays(cfg.path, "/#{path}", PathGlobs(rule.conditions))
  {
    var cs := rule.conditions;
    ShapedMeaning(sem, cs, q);
    if cfg.path.Some? && cfg.path.value != "/#{path}" {
      if v :| v in PathGlobs(cs) && Glob.Matches(v, q.path) {
        var own := q.(path := v);
        Glob.MatchesOwnText(v);
        ShapedMeaning(sem, cs, own);
        assert MatchesOnListener(sem, port, protocol, cs, own);
        assert Follow(cfg, own) == own;
      } else {
        var elsewhere := q.(path := "/" + cfg.path.value);
        assert |"/" + cfg.path.value| != |cfg.path.value| && Follow(cfg, elsewhere) != elsewhere;
        ShapedMeaning(sem, cs, elsewhere);
        assert MatchesOnListener(sem, port, protocol, cs, elsewhere);
        assert false;
      }
    }
  }

  lemma QueryStays(sem: Semantics, port: int, protocol: string, rule: Rule, cfg: RedirectConfig, q: Request)
    requires Shaped(rule.conditions) && SendsToItself(port, protocol, rule, cfg)
    requires MatchesOnListener(sem, port, protocol, rule.conditions, q)
    ensures Stays(cfg.query, "#{query}", {})
  {
    var cs := rule.conditions;
    if cfg.query.Some? && cfg.query.value != "#{query}" {
      var any := Semantics(sem.hostRegex, sem.pathRegex, Anything);
      var other := q.(query := cfg.query.value + "x");
      assert |cfg.query.value + "x"| != |cfg.query.value| && Follow(cfg, other) != other;
      ShapedMeaning(sem, cs, q);
      ShapedMeaning(any, cs, other);
      assert MatchesOnListener(any, port, protocol, cs, other);
      assert false;
    }
  }

  /** A satisfiable redirect rule with absolute path globs that sends every request it matches to
      itself is reported, so it is in no optimized list. */
  lemma SelfRedirectIsOmitted(sem: Semantics, port: int, protocol: string, rule: Rule, q: Request, rules: seq<Rule>)
    requires Shaped(rule.conditions) && PathRegexes(rule.conditions) == {}
    requires forall v :: v in PathGlobs(rule.conditions) ==> v != "" && v[0] == '/'
    requires MatchesOnListener(sem, port, protocol, rule.conditions, q)
    requires RedirectOf(rule.actions).Some? && SendsToItself(port, protocol, rule, RedirectOf(rule.actions).value)
    ensures InfiniteRedirect(port, protocol, rule) && rule !in Optimized(port, protocol, rules)
  {
    var cfg := RedirectOf(rule.actions).value;
    assert Follow(cfg, q) == q;
    HostStays(sem, port, protocol, rule, cfg, q);
    PathStays(sem, port, protocol, rule, cfg, q);
    QueryStays(sem, port, protocol, rule, cfg, q);
    NoPathRegexes(rule.conditions);
    ReportedIsOmitted(port, protocol, rule, rules);
  }

  lemma FirstIsIn(vs: seq<string>)
    ensures vs == [] || exists v :: v in vs
  {
    if vs != [] {
      assert vs[0] in vs;
    }
  }

  lemma NoPathRegexes(cs: seq<Condition>)
    requires PathRegexes(cs) == {}
    ensures forall c :: c in cs && c.IsPath() ==> c.pathConfig.value.regexValues == []
  {
    forall c | c in cs && c.IsPath() ensures c.pathConfig.value.regexValues == [] {
      var vs := c.pathConfig.value.regexValues;
      FirstIsIn(vs);
      assert forall v :: v in vs ==> v in PathRegexes(cs);
    }
  }

  lemma ReportedIsOmitted(port: int, protocol: string, rule: Rule, rules: seq<Rule>)
    requires InfiniteRedirect(port, protocol, rule)
    ensures rule !in Optimized(port, protocol, rules)
  {
    var finite := Finite(port, protocol, rules);
    GreedyFilter.KeptElements(Shadows, finite, |finite|, rule);
    FiniteElements(port, protocol, rules, |rules|, rule);
  }

  /** The redirect names no component in a way the check cannot see through: hosts and paths it goes to
      are to be found among wildcard-free ones of the rule, and the query is kept. */
  ghost predicate PlainRedirect(cs: seq<Condition>, cfg: RedirectConfig) {
    && (cfg.host.Some? && cfg.host.value != "#{host}" ==>
          HostGlobs(cs) != {} && Text.Lower(cfg.host.value) == cfg.host.value
          && forall v :: v in HostGlobs(cs) ==> Literal(v) && Text.Lower(v) == v)
    && (cfg.path.Some? && cfg.path.value != "/#{path}" ==> PathGlobs(cs) != {} && forall v :: v in PathGlobs(cs) ==> Literal(v))
    && (cfg.query.Some? ==> cfg.query.value == "#{query}")
  }

  /** For such redirects the check is exact, on every request: the rule is reported iff the request it
      redirects a matching request to is on the same listener and matches again. */
  lemma PlainRedirectReportedExactlyWhenItLoops(sem: Semantics, port: int, protocol: string, rule: Rule, q: Request)
    requires Shaped(rule.conditions) && PathRegexes(rule.conditions) == {} && RedirectOf(rule.actions).Some?
    requires PlainRedirect(rule.conditions, RedirectOf(rule.actions).value)
    requires MatchesOnListener(sem, port, protocol, rule.conditions, q)
    ensures var target := Follow(RedirectOf(rule.actions).value, q);
            InfiniteRedirect(port, protocol, rule) <==> OnListener(target, port, protocol) && ConditionsMatch(sem, rule.conditions, target)
  {
    var cs, cfg := rule.conditions, RedirectOf(rule.actions).value;
    var target := Follow(cfg, q);
    if InfiniteRedirect(port, protocol, rule) {
      RedirectTargetMatchesAgain(sem, port, protocol, rule, q);
    } else if OnListener(target, port, protocol) && ConditionsMatch(sem, cs, target) {
      ShapedMeaning(sem, cs, target);
      ShapedPathTexts(cs);
      NoPathRegexes(cs);
      if cfg.host.Some? && cfg.host.value != "#{host}" {
        var v :| v in HostGlobs(cs) && HostGlobMatches(v, target.host);
        Glob.LiteralMatchesItself(v, cfg.host.value);
      }
      if cfg.path.Some? && cfg.path.value != "/#{path}" {
        var v :| v in PathGlobs(cs) && Glob.Matches(v, target.path);
        Glob.LiteralMatchesItself(v, cfg.path.value);
      }
      assert false;
    }
  }

  const TO_FIXED_QUERY := RedirectConfig(None, None, None, None, Some("x"), "HTTP_301")

  /** Other looping redirects go unreported: one that sets a fixed query matches its own target for
      ever, and is kept. */
  lemma FixedQueryLoopIsKept(sem: Semantics, port: int, protocol: string, q: Request, n: nat)
    requires OnListener(q, port, protocol) && q.HasAbsolutePath()
    ensures var rule := PathRule(["/*"], Action(Redirect, Some(TO_FIXED_QUERY), ""));
            && !InfiniteRedirect(port, protocol, rule)
            && MatchesOnListener(sem, port, protocol, rule.conditions, FollowTimes(TO_FIXED_QUERY, q, n))
    decreases n
  {
    var action := Action(Redirect, Some(TO_FIXED_QUERY), "");
    var rule := PathRule(["/*"], action);
    assert rule.actions[0].kind.Redirect? && RedirectOf(rule.actions) == Some(TO_FIXED_QUERY);
    PathRuleMatches(sem, ["/*"], action, q);
    Glob.LiteralStarMatchesExtensions("/", q.path);
    assert "/" + "*" == "/*" && "/*" in ["/*"];
    if n > 0 {
      FixedQueryLoopIsKept(sem, port, protocol, Follow(TO_FIXED_QUERY, q), n - 1);
    }
  }

  lemma PortTexts()
    ensures Text.Decimal(443) == "443" && Text.Decimal(80) == "80"
  {
    assert Text.Decimal(4) == "4" && Text.Decimal(3) == "3" && Text.Decimal(8) == "8" && Text.Decimal(0) == "0";
    assert Text.Decimal(44) == "44";
  }

  /** The usual redirect to HTTPS on port 443 is omitted on that port and kept on port 80. */
  lemma HTTPSRedirectIsOmittedOnHTTPS()
    ensures var rule := PathRule(["/*"], Action(Redirect, Some(TO_HTTPS), ""));
            Optimized(443, "HTTPS", [rule]) == [] && Optimized(80, "HTTP", [rule]) == [rule]
  {
    var rule := PathRule(["/*"], Action(Redirect, Some(TO_HTTPS), ""));
    PortTexts();
    assert rule.actions[0].kind.Redirect? && RedirectOf(rule.actions) == Some(TO_HTTPS);
    assert InfiniteRedirect(443, "HTTPS", rule);
    assert "443"[0] == '4' && "80"[0] == '8';
    assert !InfiniteRedirect(80, "HTTP", rule);
    assert FiniteUpTo(443, "HTTPS", [rule], 0) == [] && FiniteUpTo(80, "HTTP", [rule], 0) == [];
    assert Finite(443, "HTTPS", [rule]) == [] && Finite(80, "HTTP", [rule]) == [rule];
    assert Survivors([rule], 0) == [] && !Overshadowed([rule], 0);
  }

  // ---------------------------------------------------------------- unreachable rules

  /** Conditions on hosts and paths only, without regular expressions and wildcards, except for the
      match-all path. */
  ghost predicate LiteralConditions(cs: seq<Condition>) {
    && Shaped(cs) && OnlyHostAndPath(cs) && HostRegexes(cs) == {} && PathRegexes(cs) == {}
    && (forall v :: v in HostGlobs(cs) ==> Literal(v) && Text.Lower(v) == v)
    && (forall v :: v in PathGlobs(cs) ==> v == "/*" || (Literal(v) && v != "" && v[0] == '/'))
  }

  lemma {:induction false} LongerThanAll(texts: set<string>) returns (n: nat)
    ensures forall v :: v in texts ==> |v| < n
  {
    n := 0;
    if v :| v in texts {
      var m := LongerThanAll(texts - {v});
      n := m + |v| + 1;
    }
  }

  lemma LiteralHostMatches(v: string, h: string)
    requires Literal(v) && Text.Lower(v) == v && Text.Lower(h) == h
    ensures HostGlobMatches(v, h) <==> v == h
  {
    Glob.LiteralMatchesItself(v, h);
  }

  /** A lower-case host that passes the host test of the conditions, and no literal of the other ones
      unless it has to. */
  lemma HostFor(cs: seq<Condition>, others: set<string>, h0: string) returns (h: string)
    requires LiteralConditions(cs) && (HostGlobs(cs) != {} ==> h0 in HostGlobs(cs))
    ensures Text.Lower(h) == h && (HostGlobs(cs) != {} ==> h == h0) && (HostGlobs(cs) == {} ==> h !in others)
    ensures HostGlobs(cs) == {} || (exists v :: v in HostGlobs(cs) && HostGlobMatches(v, h))
  {
    if HostGlobs(cs) != {} {
      h := h0;
      LiteralHostMatches(h0, h0);
    } else {
      var n := LongerThanAll(others);
      h := seq(n, i => 'a');
    }
  }

  lemma PathFor(cs: seq<Condition>, others: set<string>, p0: string) returns (p: string)
    requires LiteralConditions(cs) && (PathGlobs(cs) != {} ==> p0 in PathGlobs(cs))
    ensures p != "" && p[0] == '/' && (PathGlobs(cs) != {} && p0 != "/*" ==> p == p0)
    ensures PathGlobs(cs) == {} || p0 == "/*" ==> p !in others
    ensures PathGlobs(cs) == {} || (exists v :: v in PathGlobs(cs) && Glob.Matches(v, p))
  {
    var n := LongerThanAll(others);
    if PathGlobs(cs) != {} && p0 != "/*" {
      p := p0;
      Glob.LiteralMatchesItself(p0, p0);
    } else {
      p := "/" + seq(n, i => 'a');
      Glob.LiteralStarMatchesExtensions("/", p);
      assert "/" + "*" == "/*";
    }
  }

  const ANY := Semantics((p: string, s: string) => true, (p: string, s: string) => true, Anything)

  /** A request with a host and a path that pass both tests is included. */
  lemma IncludedRequest(lhs: seq<Condition>, rhs: seq<Condition>, h: string, p: string)
    requires LiteralConditions(lhs) && LiteralConditions(rhs) && Includes(lhs, rhs)
    requires p != "" && p[0] == '/'
    requires HostGlobs(rhs) == {} || exists v :: v in HostGlobs(rhs) && HostGlobMatches(v, h)
    requires PathGlobs(rhs) == {} || exists v :: v in PathGlobs(rhs) && Glob.Matches(v, p)
    ensures HostGlobs(lhs) == {} || exists v :: v in HostGlobs(lhs) && HostGlobMatches(v, h)
    ensures PathGlobs(lhs) == {} || exists v :: v in PathGlobs(lhs) && Glob.Matches(v, p)
  {
    var q := Request(h, p, "", "", "", "");
    ShapedMeaning(ANY, rhs, q);
    ShapedMeaning(ANY, lhs, q);
  }

  lemma HostsContained(lhs: seq<Condition>, rhs: seq<Condition>)
    requires LiteralConditions(lhs) && LiteralConditions(rhs) && Includes(lhs, rhs)
    ensures HostGlobs(lhs) == {} || (HostGlobs(rhs) != {} && HostGlobs(rhs) <= HostGlobs(lhs))
  {
    var p0 :| PathGlobs(rhs) != {} ==> p0 in PathGlobs(rhs);
    var p := PathFor(rhs, {}, p0);
    if HostGlobs(lhs) != {} {
      var h0 :| HostGlobs(rhs) != {} ==> h0 in HostGlobs(rhs);
      forall h1 | h1 in HostGlobs(rhs) || HostGlobs(rhs) == {} ensures HostGlobs(rhs) != {} && h1 in HostGlobs(lhs) {
        var h := HostFor(rhs, HostGlobs(lhs), h1);
        IncludedRequest(lhs, rhs, h, p);
        var v :| v in HostGlobs(lhs) && HostGlobMatches(v, h);
        LiteralHostMatches(v, h);
      }
      assert h0 in HostGlobs(rhs);
    }
  }

  lemma PathsContained(lhs: seq<Condition>, rhs: seq<Condition>)
    requires LiteralConditions(lhs) && LiteralConditions(rhs) && Includes(lhs, rhs)
    ensures PathGlobs(lhs) == {} || "/*" in PathGlobs(lhs) || (PathGlobs(rhs) != {} && PathGlobs(rhs) <= PathGlobs(lhs))
  {
    var h0 :| HostGlobs(rhs) != {} ==> h0 in HostGlobs(rhs);
    var h := HostFor(rhs, {}, h0);
    if PathGlobs(lhs) != {} && "/*" !in PathGlobs(lhs) {
      var p0 :| PathGlobs(rhs) != {} ==> p0 in PathGlobs(rhs);
      forall p1 | p1 in PathGlobs(rhs) || PathGlobs(rhs) == {} ensures PathGlobs(rhs) != {} && p1 in PathGlobs(lhs) {
        var p := PathFor(rhs, PathGlobs(lhs), p1);
        IncludedRequest(lhs, rhs, h, p);
        var v :| v in PathGlobs(lhs) && Glob.Matches(v, p);
        Glob.LiteralMatchesItself(v, p);
      }
      assert p0 in PathGlobs(rhs);
    }
  }

  /** On literal conditions the superset check is exact: it answers yes iff the left conditions match
      every request that the right ones match. */
  lemma LiteralSupersetExact(lhs: seq<Condition>, rhs: seq<Condition>)
    requires LiteralConditions(lhs) && LiteralConditions(rhs)
    ensures IsSuperset(lhs, rhs) <==> Includes(lhs, rhs)
  {
    ShapedPathTexts(lhs);
    ShapedPathTexts(rhs);
    if IsSuperset(lhs, rhs) {
      if "/*" in PathGlobs(lhs) {
        SlashStarCovers(PathGlobs(lhs));
      }
      forall sem: Semantics, q: Request | q.HasAbsolutePath() && ConditionsMatch(sem, rhs, q)
        ensures ConditionsMatch(sem, lhs, q)
      {
        GuardedSupersetIncludes(lhs, rhs, sem, q);
      }
    }
    if Includes(lhs, rhs) {
      HostsContained(lhs, rhs);
      PathsContained(lhs, rhs);
    }
  }

  ghost predicate LiteralRules(rules: seq<Rule>) {
    forall r :: r in rules ==> LiteralConditions(r.conditions)
  }

  /** So of literal rules the pass keeps exactly those that no earlier redirect rule makes
      unreachable. */
  lemma LiteralRulesKeptExactlyWhenReachable(rules: seq<Rule>, r: Rule)
    requires LiteralRules(rules)
    ensures r in Survivors(rules, |rules|) <==>
              exists j :: 0 <= j < |rules| && rules[j] == r
                && forall i :: 0 <= i < j && RedirectOf(rules[i].actions).Some? ==> !Includes(rules[i].conditions, r.conditions)
  {
    GreedyFilter.KeptElements(Shadows, rules, |rules|, r);
    forall i, j | 0 <= i < j < |rules|
      ensures Shadows(rules[i], rules[j]) <==> RedirectOf(rules[i].actions).Some? && Includes(rules[i].conditions, rules[j].conditions)
    {
      assert rules[i] in rules && rules[j] in rules;
      LiteralSupersetExact(rules[i].conditions, rules[j].conditions);
    }
  }
}
