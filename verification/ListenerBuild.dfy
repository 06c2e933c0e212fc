/** Building the rules of a listener from all Ingresses of a group, and which rule the listener then
    applies to a request. */
module ListenerBuild {
  import opened Options
  import opened ListenerRules
  import opened IngressPaths
  import RuleMeaning
  import RuleOptimizer

  datatype IngressRule = IngressRule(host: string, http: Option<seq<IngressPath>>)

  /** A member of the group. For each path `backend` gives the condition annotations, and `content`
      the actions with the transforms and tags of its rule; both may fail. */
  datatype Member = Member(
    useRegex: Result<bool, PathError>, rules: seq<IngressRule>,
    backend: IngressPath -> Result<seq<BackendCondition>, PathError>,
    content: IngressPath -> Result<(seq<Action>, string), PathError>)

  // ---------------------------------------------------------------- rules of the group

  /** The paths of one host rule of one member. */
  datatype Block = Block(member: Member, host: string, paths: seq<IngressPath>)

  function PathRule(m: Member, host: string, p: IngressPath): Result<Rule, PathError> {
    match m.backend(p)
    case Err(e) => Err(e)
    case Ok(bs) =>
      match RuleConditions(m.useRegex, host, p, bs)
      case Err(e) => Err(e)
      case Ok(cs) =>
        match m.content(p)
        case Err(e) => Err(e)
        case Ok((actions, extras)) => Ok(Rule(cs, actions, extras))
  }

  /** What an accumulating loop returns: the first error, or all results. */
  function Append(rules: seq<Rule>, more: Result<seq<Rule>, PathError>): Result<seq<Rule>, PathError> {
    match more
    case Err(e) => Err(e)
    case Ok(rs) => Ok(rules + rs)
  }

  /** Two such loops one after the other. */
  function Then(first: Result<seq<Rule>, PathError>, second: Result<seq<Rule>, PathError>): Result<seq<Rule>, PathError> {
    if first.Err? then first else Append(first.value, second)
  }

  function PathRules(m: Member, host: string, paths: seq<IngressPath>): Result<seq<Rule>, PathError> {
    if paths == [] then Ok([])
    else match PathRule(m, host, paths[0])
         case Err(e) => Err(e)
         case Ok(r) => Append([r], PathRules(m, host, paths[1..]))
  }

  function BlockRules(b: Block): Result<seq<Rule>, PathError> {
    match SortedPaths(b.paths)
    case Err(e) => Err(e)
    case Ok(paths) => PathRules(b.member, b.host, paths)
  }

  /** The loop over a list of which every element contributes rules. */
  function All<T>(rulesOf: T -> Result<seq<Rule>, PathError>, xs: seq<T>): Result<seq<Rule>, PathError> {
    if xs == [] then Ok([]) else Then(rulesOf(xs[0]), All(rulesOf, xs[1..]))
  }

  function BlocksRules(blocks: seq<Block>): Result<seq<Rule>, PathError> {
    All(BlockRules, blocks)
  }

  function RuleBlocks(m: Member, rules: seq<IngressRule>): seq<Block> {
    if rules == [] then []
    else (if rules[0].http.None? then [] else [Block(m, rules[0].host, rules[0].http.value)]) + RuleBlocks(m, rules[1..])
  }

  /** The host rules of the group, in group order. */
  function Blocks(members: seq<Member>): seq<Block> {
    if members == [] then [] else RuleBlocks(members[0], members[0].rules) + Blocks(members[1..])
  }

  lemma AppendAppend(a: seq<Rule>, b: seq<Rule>, more: Result<seq<Rule>, PathError>)
    ensures Append(a, Append(b, more)) == Append(a + b, more)
  {
    if more.Ok? {
      assert a + (b + more.value) == a + b + more.value;
    }
  }

  lemma ThenAssociative(a: Result<seq<Rule>, PathError>, b: Result<seq<Rule>, PathError>, c: Result<seq<Rule>, PathError>)
    ensures Then(Then(a, b), c) == Then(a, Then(b, c))
  {
    if a.Ok? && b.Ok? {
      AppendAppend(a.value, b.value, c);
    }
  }

  lemma AppendNothing(rules: seq<Rule>, more: Result<seq<Rule>, PathError>)
    ensures Append([], more) == more && Append(rules, Ok([])) == Ok(rules)
  {
    if more.Ok? {
      assert [] + more.value == more.value;
    }
    assert rules + [] == rules;
  }

  lemma {:induction false} AllConcat<T>(rulesOf: T -> Result<seq<Rule>, PathError>, a: seq<T>, b: seq<T>)
    ensures All(rulesOf, a + b) == Then(All(rulesOf, a), All(rulesOf, b))
  {
    if a == [] {
      assert a + b == b;
      AppendNothing([], All(rulesOf, b));
    } else {
      AllConcat(rulesOf, a[1..], b);
      assert (a + b)[1..] == a[1..] + b;
      ThenAssociative(rulesOf(a[0]), All(rulesOf, a[1..]), All(rulesOf, b));
    }
  }

  method AppendPaths(rules0: seq<Rule>, m: Member, host: string, paths: seq<IngressPath>) returns (r: Result<seq<Rule>, PathError>)
    ensures r == Append(rules0, PathRules(m, host, paths))
  {
    var rules := rules0;
    for i := 0 to |paths|
      invariant Append(rules0, PathRules(m, host, paths)) == Append(rules, PathRules(m, host, paths[i..]))
    {
      assert paths[i..][1..] == paths[i + 1..];
      var backend := m.backend(paths[i]);
      if backend.Err? {
        return Err(backend.error);
      }
      var conditions := BuildRuleConditions(m.useRegex, host, paths[i], backend.value);
      if conditions.Err? {
        return Err(conditions.error);
      }
      var content := m.content(paths[i]);
      if content.Err? {
        return Err(content.error);
      }
      var rule := Rule(conditions.value, content.value.0, content.value.1);
      AppendAppend(rules, [rule], PathRules(m, host, paths[i + 1..]));
      rules := rules + [rule];
    }
    AppendNothing(rules, Ok([]));
    r := Ok(rules);
  }

  method AppendMember(rules0: seq<Rule>, m: Member) returns (r: Result<seq<Rule>, PathError>)
    ensures r == Append(rules0, BlocksRules(RuleBlocks(m, m.rules)))
  {
    var rules := rules0;
    for i := 0 to |m.rules|
      invariant Append(rules0, BlocksRules(RuleBlocks(m, m.rules))) == Append(rules, BlocksRules(RuleBlocks(m, m.rules[i..])))
    {
      var rest := m.rules[i..];
      assert rest[0] == m.rules[i] && rest[1..] == m.rules[i + 1..];
      if m.rules[i].http.None? {
        assert RuleBlocks(m, rest) == RuleBlocks(m, rest[1..]);
        continue;
      }
      ghost var block := Block(m, m.rules[i].host, m.rules[i].http.value);
      ghost var later := RuleBlocks(m, rest[1..]);
      assert RuleBlocks(m, rest) == [block] + later;
      BlocksRulesCons(block, later);
      var paths := SortIngressPaths(m.rules[i].http.value);
      if paths.Err? {
        return Err(paths.error);
      }
      var more := AppendPaths(rules, m, m.rules[i].host, paths.value);
      if more.Err? {
        return more;
      }
      AppendAppend(rules, BlockRules(block).value, BlocksRules(later));
      rules := more.value;
    }
    AppendNothing(rules, Ok([]));
    r := Ok(rules);
  }

  lemma BlocksRulesCons(b: Block, later: seq<Block>)
    ensures BlocksRules([b] + later) == Then(BlockRules(b), BlocksRules(later))
  {
    assert ([b] + later)[1..] == later;
  }

  method CollectRules(members: seq<Member>) returns (r: Result<seq<Rule>, PathError>)
    ensures r == BlocksRules(Blocks(members))
  {
    var rules: seq<Rule> := [];
    AppendNothing([], BlocksRules(Blocks(members)));
    for i := 0 to |members|
      invariant BlocksRules(Blocks(members)) == Append(rules, BlocksRules(Blocks(members[i..])))
    {
      var rest := members[i..];
      ghost var mine, later := RuleBlocks(members[i], members[i].rules), Blocks(rest[1..]);
      assert rest[1..] == members[i + 1..] && Blocks(rest) == mine + later;
      AllConcat(BlockRules, mine, later);
      var more := AppendMember(rules, members[i]);
      if more.Err? {
        return more;
      }
      AppendAppend(rules, BlocksRules(mine).value, BlocksRules(later));
      rules := more.value;
    }
    AppendNothing(rules, Ok([]));
    r := Ok(rules);
  }

  /** The HTTP listeners of a group with an SSL redirect redirect everything by default and have no
      rules. */
  predicate RedirectsAll(protocol: string, sslRedirect: bool) {
    sslRedirect && protocol == "HTTP"
  }

  function Deployed(members: seq<Member>, port: int, protocol: string, sslRedirect: bool): Result<set<ListenerRule>, PathError> {
    if RedirectsAll(protocol, sslRedirect) then Ok({})
    else match BlocksRules(Blocks(members))
         case Err(e) => Err(e)
         case Ok(rules) => Ok(Numbered(RuleOptimizer.Optimized(port, protocol, rules), 1))
  }

  /** The rules of all members are collected, optimized and numbered; the first error ends it. */
  method BuildListenerRules(members: seq<Member>, port: int, protocol: string, sslRedirect: bool)
    returns (r: Result<seq<ListenerRule>, PathError>)
    ensures match Deployed(members, port, protocol, sslRedirect)
            case Err(e) => r == Err(e)
            case Ok(deployed) => r.Ok? && (set d | d in r.value) == deployed
    ensures sslRedirect && protocol == "HTTP" ==> r == Ok([])
  {
    if RedirectsAll(protocol, sslRedirect) {
      return Ok([]);
    }
    var collected := CollectRules(members);
    if collected.Err? {
      return Err(collected.error);
    }
    var optimized := RuleOptimizer.Optimize(port, protocol, collected.value);
    var deployed := AssignPriorities(optimized);
    DeployedIsNumbered(deployed, optimized);
    r := Ok(deployed);
  }

  lemma DeployedIsNumbered(deployed: seq<ListenerRule>, rules: seq<Rule>)
    requires |deployed| == |rules| && forall i :: 0 <= i < |rules| ==> deployed[i] == ListenerRule(i + 1, rules[i])
    ensures (set d | d in deployed) == Numbered(rules, 1)
  {
    forall d | d in Numbered(rules, 1) ensures d in deployed {
      var i :| 0 <= i < |rules| && d == ListenerRule(1 + i, rules[i]);
      assert d == deployed[i];
    }
    forall d | d in deployed ensures d in Numbered(rules, 1) {
      var i :| 0 <= i < |deployed| && d == deployed[i];
      assert d == ListenerRule(1 + i, rules[i]);
    }
  }

  // ---------------------------------------------------------------- which rule serves a request

  function ContextOf(sem: Semantics, b: Block): Context {
    Context(sem, b.host, b.member.useRegex, (p: IngressPath) => if b.member.backend(p).Ok? then b.member.backend(p).value else [])
  }

  ghost predicate BlockServes(sem: Semantics, b: Block, q: Request) {
    exists p :: p in b.paths && Serves(ContextOf(sem, b), p, q)
  }

  /** The index of the block and the path that serve a request: the first block with a path that does,
      and its first such path in the sorted order. */
  ghost function ServedBy(sem: Semantics, blocks: seq<Block>, q: Request): (served: Option<(nat, IngressPath)>)
    ensures served.Some? ==> served.value.0 < |blocks|
  {
    if blocks == [] then None
    else match FirstServing(ContextOf(sem, blocks[0]), Sorted(blocks[0].paths), q)
         case Some(p) => Some((0, p))
         case None =>
           match ServedBy(sem, blocks[1..], q)
           case Some((k, p)) => Some((k + 1, p))
           case None => None
  }

  lemma {:induction false} PathRulesSelect(sem: Semantics, b: Block, paths: seq<IngressPath>, q: Request)
    requires PathRules(b.member, b.host, paths).Ok?
    ensures match FirstServing(ContextOf(sem, b), paths, q)
            case None => Select(sem, PathRules(b.member, b.host, paths).value, q) == None
            case Some(p) => PathRule(b.member, b.host, p).Ok?
                            && Select(sem, PathRules(b.member, b.host, paths).value, q) == Some(PathRule(b.member, b.host, p).value)
    ensures forall p :: p in paths ==> PathRule(b.member, b.host, p).Ok? && Compiled(ContextOf(sem, b), p).Ok?
  {
    if paths != [] {
      PathRulesSelect(sem, b, paths[1..], q);
      var r := PathRule(b.member, b.host, paths[0]).value;
      var rest := PathRules(b.member, b.host, paths[1..]).value;
      assert r.conditions == Compiled(ContextOf(sem, b), paths[0]).value;
      assert ([r] + rest)[1..] == rest;
      assert PathRules(b.member, b.host, paths).value == [r] + rest;
    }
  }

  /** Before optimizing, the listener applies the rule of the block and path that serve the request. */
  lemma {:induction false} BlocksSelect(sem: Semantics, blocks: seq<Block>, q: Request)
    requires BlocksRules(blocks).Ok?
    ensures match ServedBy(sem, blocks, q)
            case None => Select(sem, BlocksRules(blocks).value, q) == None
            case Some((k, p)) => PathRule(blocks[k].member, blocks[k].host, p).Ok?
                                 && Select(sem, BlocksRules(blocks).value, q) == Some(PathRule(blocks[k].member, blocks[k].host, p).value)
  {
    if blocks != [] {
      var mine, later := BlockRules(blocks[0]).value, BlocksRules(blocks[1..]).value;
      BlocksSelect(sem, blocks[1..], q);
      PathRulesSelect(sem, blocks[0], Sorted(blocks[0].paths), q);
      SelectConcat(sem, mine, later, q);
    }
  }

  /** What the Kubernetes API server guarantees of Exact and Prefix paths. */
  predicate WellFormed(b: Block) {
    forall p :: p in b.paths && (Kind(p) == Exact || Kind(p) == Prefix) ==> p.path != "" && p.path[0] == '/'
  }

  lemma BlockAccepted(sem: Semantics, b: Block, q: Request)
    requires BlockRules(b).Ok? && WellFormed(b)
    ensures Accepted(ContextOf(sem, b), b.paths)
    ensures forall p :: p in Sorted(b.paths) <==> p in b.paths
  {
    SortedElements(b.paths);
    PathRulesSelect(sem, b, Sorted(b.paths), q);
  }

  /** Within a block without condition annotations the path is the documented choice. */
  lemma BlockChoice(sem: Semantics, b: Block, q: Request)
    requires BlockRules(b).Ok? && WellFormed(b) && q.HasAbsolutePath()
    ensures var ctx := ContextOf(sem, b); var r := FirstServing(ctx, Sorted(b.paths), q);
            && (r.Some? <==> BlockServes(sem, b, q))
            && (r.Some? && Plain(ctx, b.paths) ==> HostServes(ctx, q) && Chosen(ctx, b.paths, q, r.value))
  {
    var ctx := ContextOf(sem, b);
    BlockAccepted(sem, b, q);
    NothingServes(ctx, Sorted(b.paths), q);
    FirstServingIsElement(ctx, Sorted(b.paths), q);
    var r := FirstServing(ctx, Sorted(b.paths), q);
    if r.Some? && Plain(ctx, b.paths) {
      ServesMeaning(ctx, r.value, q);
      PathSelection(ctx, b.paths, q);
    }
  }

  /** p is the path that serves the request in a block: the first in sorted order, which without
      condition annotations is the documented choice. */
  ghost predicate Choice(sem: Semantics, b: Block, q: Request, p: IngressPath) {
    var ctx := ContextOf(sem, b);
    && FirstServing(ctx, Sorted(b.paths), q) == Some(p)
    && (Plain(ctx, b.paths) ==> HostServes(ctx, q) && Chosen(ctx, b.paths, q, p))
  }

  /** Block k is the first of the group, in the order of members and of their host rules, with a path
      that serves the request, and p is the path chosen in it. */
  ghost predicate ChosenIn(sem: Semantics, blocks: seq<Block>, q: Request, k: nat, p: IngressPath) {
    && k < |blocks| && BlockServes(sem, blocks[k], q) && Choice(sem, blocks[k], q, p)
    && forall j :: 0 <= j < k ==> !BlockServes(sem, blocks[j], q)
  }

  ghost predicate AllBuilt(blocks: seq<Block>) {
    forall b :: b in blocks ==> BlockRules(b).Ok? && WellFormed(b)
  }

  ghost predicate NoneServes(sem: Semantics, blocks: seq<Block>, q: Request) {
    forall b :: b in blocks ==> !BlockServes(sem, b, q)
  }

  lemma TailBuilt(blocks: seq<Block>)
    requires AllBuilt(blocks) && blocks != []
    ensures AllBuilt(blocks[1..]) && BlockRules(blocks[0]).Ok? && WellFormed(blocks[0])
  {
  }

  lemma NoneServesCons(sem: Semantics, blocks: seq<Block>, q: Request)
    requires blocks != [] && !BlockServes(sem, blocks[0], q) && NoneServes(sem, blocks[1..], q)
    ensures NoneServes(sem, blocks, q)
  {
    assert blocks == [blocks[0]] + blocks[1..];
  }

  /** The answer is right: none if no block serves the request, else a chosen one. */
  ghost predicate Right(sem: Semantics, blocks: seq<Block>, q: Request, served: Option<(nat, IngressPath)>) {
    match served
    case None => NoneServes(sem, blocks, q)
    case Some((k, p)) => ChosenIn(sem, blocks, q, k, p)
  }

  /** The answer for a longer list from that for its tail. */
  function Shifted(served: Option<(nat, IngressPath)>): Option<(nat, IngressPath)> {
    match served
    case None => None
    case Some((k, p)) => Some((k + 1, p))
  }

  lemma ServedByCons(sem: Semantics, blocks: seq<Block>, q: Request)
    requires blocks != []
    ensures ServedBy(sem, blocks, q) ==
              match FirstServing(ContextOf(sem, blocks[0]), Sorted(blocks[0].paths), q)
              case Some(p) => Some((0, p))
              case None => Shifted(ServedBy(sem, blocks[1..], q))
  {
  }

  lemma ShiftedRight(sem: Semantics, blocks: seq<Block>, q: Request, served: Option<(nat, IngressPath)>)
    requires blocks != [] && !BlockServes(sem, blocks[0], q) && Right(sem, blocks[1..], q, served)
    ensures Right(sem, blocks, q, Shifted(served))
  {
    match served
    case None => NoneServesCons(sem, blocks, q);
    case Some((k, p)) => ChosenLater(sem, blocks, q, k, p);
  }

  lemma {:induction false} ServedByIsChosen(sem: Semantics, blocks: seq<Block>, q: Request)
    requires q.HasAbsolutePath() && AllBuilt(blocks)
    ensures Right(sem, blocks, q, ServedBy(sem, blocks, q))
  {
    if blocks != [] {
      TailBuilt(blocks);
      ChosenFirst(sem, blocks, q);
      ServedByCons(sem, blocks, q);
      if FirstServing(ContextOf(sem, blocks[0]), Sorted(blocks[0].paths), q).None? {
        ServedByIsChosen(sem, blocks[1..], q);
        ShiftedRight(sem, blocks, q, ServedBy(sem, blocks[1..], q));
      }
    }
  }

  lemma ChosenFirst(sem: Semantics, blocks: seq<Block>, q: Request)
    requires blocks != [] && BlockRules(blocks[0]).Ok? && WellFormed(blocks[0]) && q.HasAbsolutePath()
    ensures match FirstServing(ContextOf(sem, blocks[0]), Sorted(blocks[0].paths), q)
            case None => !BlockServes(sem, blocks[0], q)
            case Some(p) => ChosenIn(sem, blocks, q, 0, p)
  {
    BlockChoice(sem, blocks[0], q);
  }

  lemma ChosenLater(sem: Semantics, blocks: seq<Block>, q: Request, k: nat, p: IngressPath)
    requires blocks != [] && !BlockServes(sem, blocks[0], q) && ChosenIn(sem, blocks[1..], q, k, p)
    ensures ChosenIn(sem, blocks, q, k + 1, p) && blocks[k + 1] == blocks[1..][k]
  {
    var rest := blocks[1..];
    assert blocks[k + 1] == rest[k];
    forall j | 0 <= j < k + 1 ensures !BlockServes(sem, blocks[j], q) {
      if j > 0 {
        assert blocks[j] == rest[j - 1];
      }
    }
  }

  lemma {:induction false} BlocksBuilt(blocks: seq<Block>)
    requires BlocksRules(blocks).Ok?
    ensures forall b :: b in blocks ==> BlockRules(b).Ok?
  {
    if blocks != [] {
      BlocksBuilt(blocks[1..]);
      assert blocks == [blocks[0]] + blocks[1..];
    }
  }

  /** End to end, for all members, hosts and annotations of a group whose rules are guarded: the
      deployed listener applies the rule of the first host rule, in the order of the group, that has a
      path serving the request, and in it that of the first path in sorted order, which without
      condition annotations is the documented choice. It applies no rule iff no path serves the
      request or the listener redirects everything. This is said of every request not selected by a
      reported infinite redirect. */
  lemma ListenerServesDocumentedChoice(sem: Semantics, members: seq<Member>, port: int, protocol: string, sslRedirect: bool, q: Request)
    requires var blocks := Blocks(members);
             && q.HasAbsolutePath() && BlocksRules(blocks).Ok? && (forall b :: b in blocks ==> WellFormed(b))
             && RuleOptimizer.GuardedRules(RuleOptimizer.Finite(port, protocol, BlocksRules(blocks).value))
             && (ServedBy(sem, blocks, q).Some? ==>
                   var (k, p) := ServedBy(sem, blocks, q).value;
                   PathRule(blocks[k].member, blocks[k].host, p).Ok? ==>
                     !RuleOptimizer.InfiniteRedirect(port, protocol, PathRule(blocks[k].member, blocks[k].host, p).value))
    ensures Deployed(members, port, protocol, sslRedirect).Ok?
    ensures var blocks := Blocks(members);
            var deployed := Deployed(members, port, protocol, sslRedirect).value;
            && ((exists r :: Applies(sem, deployed, q, r)) <==>
                  !(sslRedirect && protocol == "HTTP") && exists b :: b in blocks && BlockServes(sem, b, q))
            && forall r :: Applies(sem, deployed, q, r) ==>
                 exists k: nat, p :: ChosenIn(sem, blocks, q, k, p) && PathRule(blocks[k].member, blocks[k].host, p) == Ok(r.rule)
  {
    var blocks := Blocks(members);
    var rules := BlocksRules(blocks).value;
    BlocksBuilt(blocks);
    ServedByIsChosen(sem, blocks, q);
    BlocksSelect(sem, blocks, q);
    RuleOptimizer.OptimizePreservesMeaning(sem, port, protocol, rules, q);
    PrioritiesGiveFirstMatch(sem, RuleOptimizer.Optimized(port, protocol, rules), 1, q);
  }

  /** What serving means in the end, said on the host, the path and the annotations of its backend. */
  lemma ServesMeansTests(sem: Semantics, b: Block, p: IngressPath, q: Request)
    requires q.HasAbsolutePath() && PathRule(b.member, b.host, p).Ok?
    ensures b.member.backend(p).Ok?
    ensures Serves(ContextOf(sem, b), p, q) <==>
              && RuleMeaning.HostTest(sem, b.host, b.member.backend(p).value, q.host)
              && RuleMeaning.PathTest(sem, b.member.useRegex, p, b.member.backend(p).value, q.path)
              && RuleMeaning.OtherTests(sem, b.member.backend(p).value, q)
    ensures var rule := PathRule(b.member, b.host, p).value;
            Ok((rule.actions, rule.extras)) == b.member.content(p)
            && (ConditionsMatch(sem, rule.conditions, q) <==> Serves(ContextOf(sem, b), p, q))
  {
    RuleMeaning.ConditionsMean(sem, b.member.useRegex, b.host, p, b.member.backend(p).value, q);
  }

  // ---------------------------------------------------------------- the order of the group

  /** How many of the first n host rules have paths. */
  function WithPaths(rules: seq<IngressRule>, n: nat): nat
    requires n <= |rules|
  {
    if n == 0 then 0 else WithPaths(rules, n - 1) + if rules[n - 1].http.Some? then 1 else 0
  }

  /** How many host rules with paths come before the j-th of the i-th member. */
  function Position(members: seq<Member>, i: nat, j: nat): nat
    requires i < |members| && j <= |members[i].rules|
  {
    if i == 0 then WithPaths(members[0].rules, j)
    else |RuleBlocks(members[0], members[0].rules)| + Position(members[1..], i - 1, j)
  }

  lemma {:induction false} WithPathsTail(rules: seq<IngressRule>, n: nat)
    requires 0 < n <= |rules|
    ensures WithPaths(rules, n) == (if rules[0].http.Some? then 1 else 0) + WithPaths(rules[1..], n - 1)
  {
    if n > 1 {
      WithPathsTail(rules, n - 1);
    }
  }

  lemma {:induction false} RuleBlockAt(m: Member, rules: seq<IngressRule>, j: nat)
    requires j < |rules| && rules[j].http.Some?
    ensures WithPaths(rules, j) < |RuleBlocks(m, rules)|
    ensures RuleBlocks(m, rules)[WithPaths(rules, j)] == Block(m, rules[j].host, rules[j].http.value)
  {
    if j > 0 {
      RuleBlockAt(m, rules[1..], j - 1);
      WithPathsTail(rules, j);
    }
  }

  lemma {:induction false} RuleBlocksCount(m: Member, rules: seq<IngressRule>)
    ensures |RuleBlocks(m, rules)| == WithPaths(rules, |rules|)
  {
    if rules != [] {
      RuleBlocksCount(m, rules[1..]);
      WithPathsTail(rules, |rules|);
    }
  }

  /** Each host rule with paths is one block, at its position in the order of the members and of their
      host rules. */
  lemma {:induction false} BlockAt(members: seq<Member>, i: nat, j: nat)
    requires i < |members| && j < |members[i].rules| && members[i].rules[j].http.Some?
    ensures Position(members, i, j) < |Blocks(members)|
    ensures Blocks(members)[Position(members, i, j)] == Block(members[i], members[i].rules[j].host, members[i].rules[j].http.value)
  {
    if i == 0 {
      RuleBlockAt(members[0], members[0].rules, j);
    } else {
      BlockAt(members[1..], i - 1, j);
    }
  }

  lemma {:induction false} WithPathsGrows(rules: seq<IngressRule>, j: nat, l: nat)
    requires j < l <= |rules| && rules[j].http.Some?
    ensures WithPaths(rules, j) < WithPaths(rules, l)
  {
    if j < l - 1 {
      WithPathsGrows(rules, j, l - 1);
    }
  }

  /** Earlier members, and earlier host rules of one member, come first. */
  lemma {:induction false} PositionsAscend(members: seq<Member>, i: nat, j: nat, k: nat, l: nat)
    requires i < |members| && j < |members[i].rules| && members[i].rules[j].http.Some?
    requires k < |members| && l < |members[k].rules| && (i < k || (i == k && j < l))
    ensures Position(members, i, j) < Position(members, k, l)
  {
    if i > 0 {
      PositionsAscend(members[1..], i - 1, j, k - 1, l);
    } else if k == 0 {
      WithPathsGrows(members[0].rules, j, l);
    } else {
      RuleBlocksCount(members[0], members[0].rules);
      WithPathsGrows(members[0].rules, j, |members[0].rules|);
    }
  }

  /** There are no other blocks. */
  lemma {:induction false} BlockOrigin(members: seq<Member>, b: Block) returns (i: nat, j: nat)
    requires b in Blocks(members)
    ensures i < |members| && j < |members[i].rules| && members[i].rules[j].http.Some?
    ensures b == Block(members[i], members[i].rules[j].host, members[i].rules[j].http.value)
  {
    if b in RuleBlocks(members[0], members[0].rules) {
      i := 0;
      j := RuleBlockOrigin(members[0], members[0].rules, b);
    } else {
      i, j := BlockOrigin(members[1..], b);
      i := i + 1;
    }
  }

  lemma {:induction false} RuleBlockOrigin(m: Member, rules: seq<IngressRule>, b: Block) returns (j: nat)
    requires b in RuleBlocks(m, rules)
    ensures j < |rules| && rules[j].http.Some? && b == Block(m, rules[j].host, rules[j].http.value)
  {
    if rules[0].http.Some? && b == Block(m, rules[0].host, rules[0].http.value) {
      j := 0;
    } else {
      j := RuleBlockOrigin(m, rules[1..], b);
      j := j + 1;
    }
  }

  // ---------------------------------------------------------------- groups with guarded rules

  lemma {:induction false} RulesComeFromPaths(b: Block, paths: seq<IngressPath>, r: Rule)
    requires PathRules(b.member, b.host, paths).Ok? && r in PathRules(b.member, b.host, paths).value
    ensures exists p :: p in paths && PathRule(b.member, b.host, p) == Ok(r)
  {
    if PathRule(b.member, b.host, paths[0]) != Ok(r) {
      RulesComeFromPaths(b, paths[1..], r);
    }
  }

  lemma {:induction false} RulesComeFromBlocks(blocks: seq<Block>, r: Rule)
    requires BlocksRules(blocks).Ok? && r in BlocksRules(blocks).value
    ensures exists b, p :: b in blocks && p in b.paths && PathRule(b.member, b.host, p) == Ok(r)
  {
    if r in BlockRules(blocks[0]).value {
      RulesComeFromPaths(blocks[0], Sorted(blocks[0].paths), r);
      SortedElements(blocks[0].paths);
    } else {
      RulesComeFromBlocks(blocks[1..], r);
    }
  }

  /** A condition annotation without regular expressions. */
  predicate GlobsOnly(b: BackendCondition) {
    (b.hostConfig.Some? ==> b.hostConfig.value.regexValues == []) && (b.pathConfig.Some? ==> b.pathConfig.value.regexValues == [])
  }

  lemma {:induction false} CollectGlobs(p: Parts, bs: seq<BackendCondition>)
    requires p.hostRegexValues == [] && p.pathRegexValues == [] && Collect(p, bs).Ok? && forall b :: b in bs ==> GlobsOnly(b)
    ensures Collect(p, bs).value.hostRegexValues == [] && Collect(p, bs).value.pathRegexValues == []
    decreases bs
  {
    if bs != [] {
      assert GlobsOnly(bs[0]);
      CollectGlobs(AddCondition(p, bs[0]).value, bs[1..]);
    }
  }

  lemma AssembledGlobs(p: Parts)
    requires Assemble(p).Ok? && p.hostRegexValues == [] && p.pathRegexValues == []
    requires forall c :: c in p.conditions ==> !c.IsHost() && !c.IsPath()
    ensures HostRegexes(Assemble(p).value) == {} && PathRegexes(Assemble(p).value) == {}
  {
    forall c | c in Assemble(p).value
      ensures (c.IsHost() ==> c.hostConfig.value.regexValues == []) && (c.IsPath() ==> c.pathConfig.value.regexValues == [])
    {
    }
  }

  lemma GlobConditions(m: Member, host: string, p: IngressPath, bs: seq<BackendCondition>)
    requires m.useRegex == Ok(false) && RuleConditions(m.useRegex, host, p, bs).Ok? && forall b :: b in bs ==> GlobsOnly(b)
    ensures var cs := RuleConditions(m.useRegex, host, p, bs).value;
            Shaped(cs) && HostRegexes(cs) == {} && PathRegexes(cs) == {}
  {
    RuleConditionsShaped(m.useRegex, host, p, bs);
    var start := StartParts(m.useRegex, host, p).value;
    CollectGlobs(start, bs);
    CollectKeepsOthersApart(start, bs);
    AssembledGlobs(Collect(start, bs).value);
  }

  /** No member uses regular expressions. */
  ghost predicate GlobGroup(members: seq<Member>) {
    forall b, p :: b in Blocks(members) && p in b.paths ==>
      b.member.useRegex == Ok(false) && (b.member.backend(p).Ok? ==> forall c :: c in b.member.backend(p).value ==> GlobsOnly(c))
  }

  /** The rules of a group that uses no regular expressions are guarded, whatever else its annotations
      say. */
  lemma GlobGroupIsGuarded(members: seq<Member>, port: int, protocol: string)
    requires BlocksRules(Blocks(members)).Ok? && GlobGroup(members)
    ensures RuleOptimizer.GuardedRules(RuleOptimizer.Finite(port, protocol, BlocksRules(Blocks(members)).value))
  {
    var rules := BlocksRules(Blocks(members)).value;
    var finite := RuleOptimizer.Finite(port, protocol, rules);
    forall r | r in finite ensures Shaped(r.conditions) && PathRegexes(r.conditions) == {} && HostRegexes(r.conditions) == {} {
      RuleOptimizer.FiniteElements(port, protocol, rules, |rules|, r);
      RulesComeFromBlocks(Blocks(members), r);
      var b, p :| b in Blocks(members) && p in b.paths && PathRule(b.member, b.host, p) == Ok(r);
      GlobConditions(b.member, b.host, p, b.member.backend(p).value);
    }
    RuleOptimizer.GlobRulesAreGuarded(finite);
  }
}
