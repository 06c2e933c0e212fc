/** From the paths of an Ingress host rule to listener rules: classifying and ordering the
    paths, compiling each to patterns and conditions, and what the resulting listener does. */
module IngressPaths {
  import opened Options
  import opened ListenerRules
  import Glob
  import Text

  datatype PathType = Exact | Prefix | ImplementationSpecific | UnknownType(name: string)

  datatype IngressPath = IngressPath(path: string, pathType: Option<PathType>, backend: string)

  datatype PathError =
    | UnknownPathType(path: string)
    | WildcardInPath(path: string)
    | InvalidRegexAnnotation
    | MissingConfig(field: Field)
    | BothHostKinds
    | BothPathKinds

  function Kind(p: IngressPath): PathType {
    if p.pathType.None? then ImplementationSpecific else p.pathType.value
  }

  /** The length in bytes, by which paths are ordered. */
  function Length(p: IngressPath): nat {
    Text.Utf8Length(p.path)
  }

  // ---------------------------------------------------------------- classifying and ordering

  datatype Want = OfKind(kind: PathType) | OfLength(length: nat) | OfKindAndLength(kind: PathType, length: nat)

  predicate Wanted(w: Want, p: IngressPath) {
    match w
    case OfKind(k) => Kind(p) == k
    case OfLength(n) => Length(p) == n
    case OfKindAndLength(k, n) => Kind(p) == k && Length(p) == n
  }

  /** The wanted paths, in their original order. */
  function Filter(paths: seq<IngressPath>, w: Want): seq<IngressPath> {
    if paths == [] then []
    else (if Wanted(w, paths[0]) then [paths[0]] else []) + Filter(paths[1..], w)
  }

  lemma {:induction false} FilterSnoc(paths: seq<IngressPath>, p: IngressPath, w: Want)
    ensures Filter(paths + [p], w) == Filter(paths, w) + if Wanted(w, p) then [p] else []
  {
    if paths == [] {
      assert paths + [p] == [p];
    } else {
      FilterSnoc(paths[1..], p, w);
      assert (paths + [p])[1..] == paths[1..] + [p];
    }
  }

  lemma {:induction false} FilterElements(paths: seq<IngressPath>, w: Want, p: IngressPath)
    ensures p in Filter(paths, w) <==> p in paths && Wanted(w, p)
  {
    if paths != [] {
      FilterElements(paths[1..], w, p);
    }
  }

  /** The complaint about the first path of unknown type, if any. */
  function FirstUnknown(paths: seq<IngressPath>): (e: Option<PathError>)
    ensures e.None? <==> forall p :: p in paths ==> !Kind(p).UnknownType?
  {
    if paths == [] then None
    else if Kind(paths[0]).UnknownType? then Some(UnknownPathType(paths[0].path))
    else
      assert forall p :: p in paths <==> p == paths[0] || p in paths[1..];
      FirstUnknown(paths[1..])
  }

  method ClassifyIngressPathsByType(paths: seq<IngressPath>)
    returns (r: Result<(seq<IngressPath>, seq<IngressPath>, seq<IngressPath>), PathError>)
    ensures r.Ok? <==> forall p :: p in paths ==> !Kind(p).UnknownType?
    ensures r.Ok? ==> r.value.0 == Filter(paths, OfKind(Exact))
    ensures r.Ok? ==> r.value.1 == Filter(paths, OfKind(Prefix))
    ensures r.Ok? ==> r.value.2 == Filter(paths, OfKind(ImplementationSpecific))
    ensures r.Err? ==> FirstUnknown(paths) == Some(r.error)
  {
    var exactPaths, prefixPaths, implementationSpecificPaths := [], [], [];
    for i := 0 to |paths|
      invariant forall k :: 0 <= k < i ==> !Kind(paths[k]).UnknownType?
      invariant FirstUnknown(paths) == FirstUnknown(paths[i..])
      invariant exactPaths == Filter(paths[..i], OfKind(Exact))
      invariant prefixPaths == Filter(paths[..i], OfKind(Prefix))
      invariant implementationSpecificPaths == Filter(paths[..i], OfKind(ImplementationSpecific))
    {
      var path := paths[i];
      assert paths[..i + 1] == paths[..i] + [path];
      assert paths[i..][1..] == paths[i + 1..];
      FilterSnoc(paths[..i], path, OfKind(Exact));
      FilterSnoc(paths[..i], path, OfKind(Prefix));
      FilterSnoc(paths[..i], path, OfKind(ImplementationSpecific));
      if path.pathType.Some? {
        match path.pathType.value
        case Exact => exactPaths := exactPaths + [path];
        case Prefix => prefixPaths := prefixPaths + [path];
        case ImplementationSpecific => implementationSpecificPaths := implementationSpecificPaths + [path];
        case UnknownType(_) => return Err(UnknownPathType(path.path));
      } else {
        implementationSpecificPaths := implementationSpecificPaths + [path];
      }
    }
    assert paths[..|paths|] == paths;
    r := Ok((exactPaths, prefixPaths, implementationSpecificPaths));
  }

  function InsertByLength(p: IngressPath, sorted: seq<IngressPath>): seq<IngressPath> {
    if sorted == [] || Length(p) >= Length(sorted[0]) then [p] + sorted
    else [sorted[0]] + InsertByLength(p, sorted[1..])
  }

  /** `sort.SliceStable` with longer paths first. */
  function SortByLength(paths: seq<IngressPath>): seq<IngressPath> {
    if paths == [] then [] else InsertByLength(paths[0], SortByLength(paths[1..]))
  }

  predicate LongestFirst(paths: seq<IngressPath>) {
    forall i, j :: 0 <= i < j < |paths| ==> Length(paths[i]) >= Length(paths[j])
  }

  lemma {:induction false} InsertKeepsOrder(p: IngressPath, sorted: seq<IngressPath>)
    requires LongestFirst(sorted)
    ensures LongestFirst(InsertByLength(p, sorted))
    ensures forall q :: q in InsertByLength(p, sorted) <==> q == p || q in sorted
  {
    if sorted != [] && Length(p) < Length(sorted[0]) {
      InsertKeepsOrder(p, sorted[1..]);
      var rest := InsertByLength(p, sorted[1..]);
      forall q | q in rest ensures Length(sorted[0]) >= Length(q) {}
      assert InsertByLength(p, sorted) == [sorted[0]] + rest;
    }
  }

  lemma FilterCons(p: IngressPath, paths: seq<IngressPath>, w: Want)
    ensures Filter([p] + paths, w) == (if Wanted(w, p) then [p] else []) + Filter(paths, w)
  {
    assert ([p] + paths)[1..] == paths;
  }

  lemma {:induction false} InsertIsStable(p: IngressPath, sorted: seq<IngressPath>, n: nat)
    ensures Filter(InsertByLength(p, sorted), OfLength(n)) == (if Length(p) == n then [p] else []) + Filter(sorted, OfLength(n))
  {
    if sorted == [] || Length(p) >= Length(sorted[0]) {
      FilterCons(p, sorted, OfLength(n));
    } else {
      InsertIsStable(p, sorted[1..], n);
      FilterCons(sorted[0], InsertByLength(p, sorted[1..]), OfLength(n));
      FilterCons(sorted[0], sorted[1..], OfLength(n));
      assert sorted == [sorted[0]] + sorted[1..];
    }
  }

  /** The order is what the sort promises: longest first, and paths of one length stay in order. */
  lemma {:induction false} SortByLengthCorrect(paths: seq<IngressPath>)
    ensures LongestFirst(SortByLength(paths))
    ensures forall n: nat :: Filter(SortByLength(paths), OfLength(n)) == Filter(paths, OfLength(n))
    ensures forall p :: p in SortByLength(paths) <==> p in paths
  {
    if paths != [] {
      SortByLengthCorrect(paths[1..]);
      InsertKeepsOrder(paths[0], SortByLength(paths[1..]));
      forall n: nat ensures Filter(SortByLength(paths), OfLength(n)) == Filter(paths, OfLength(n)) {
        InsertIsStable(paths[0], SortByLength(paths[1..]), n);
      }
    }
  }

  lemma FilterByHeadLength(paths: seq<IngressPath>)
    requires paths != []
    ensures Filter(paths, OfLength(Length(paths[0]))) == [paths[0]] + Filter(paths[1..], OfLength(Length(paths[0])))
    ensures forall n: nat :: n != Length(paths[0]) ==> Filter(paths, OfLength(n)) == Filter(paths[1..], OfLength(n))
  {
  }

  lemma HeadsAgree(a: seq<IngressPath>, b: seq<IngressPath>)
    requires LongestFirst(a) && LongestFirst(b) && a != []
    requires forall n: nat :: Filter(a, OfLength(n)) == Filter(b, OfLength(n))
    ensures b != [] && a[0] == b[0]
  {
    FilterElements(a, OfLength(Length(a[0])), a[0]);
    FilterElements(b, OfLength(Length(a[0])), a[0]);
    FilterElements(b, OfLength(Length(b[0])), b[0]);
    FilterElements(a, OfLength(Length(b[0])), b[0]);
    assert Length(a[0]) == Length(b[0]);
    assert a[0] == Filter(a, OfLength(Length(a[0])))[0] == b[0] by {
      FilterByHeadLength(a);
      FilterByHeadLength(b);
    }
  }

  /** That promise leaves no choice, so any stable sort returns the same list. */
  lemma {:induction false} StableOrderUnique(a: seq<IngressPath>, b: seq<IngressPath>)
    requires LongestFirst(a) && LongestFirst(b)
    requires forall n: nat :: Filter(a, OfLength(n)) == Filter(b, OfLength(n))
    ensures a == b
  {
    if a == [] {
      if b != [] {
        HeadsAgree(b, a);
      }
    } else {
      HeadsAgree(a, b);
      FilterByHeadLength(a);
      FilterByHeadLength(b);
      forall n: nat ensures Filter(a[1..], OfLength(n)) == Filter(b[1..], OfLength(n)) {
        if n == Length(a[0]) {
          assert Filter(a, OfLength(n))[1..] == Filter(b, OfLength(n))[1..];
        }
      }
      StableOrderUnique(a[1..], b[1..]);
      assert a == [a[0]] + a[1..] && b == [b[0]] + b[1..];
    }
  }

  function Sorted(paths: seq<IngressPath>): seq<IngressPath> {
    Filter(paths, OfKind(Exact)) + SortByLength(Filter(paths, OfKind(Prefix))) + Filter(paths, OfKind(ImplementationSpecific))
  }

  /** Sorting fails with the complaint about the first path of unknown type. */
  function SortedPaths(paths: seq<IngressPath>): Result<seq<IngressPath>, PathError> {
    match FirstUnknown(paths)
    case Some(e) => Err(e)
    case None => Ok(Sorted(paths))
  }

  method SortIngressPaths(paths: seq<IngressPath>) returns (r: Result<seq<IngressPath>, PathError>)
    ensures r == SortedPaths(paths)
    ensures r.Ok? <==> forall p :: p in paths ==> !Kind(p).UnknownType?
  {
    var classified := ClassifyIngressPathsByType(paths);
    match classified
    case Err(e) => r := Err(e);
    case Ok((exactPaths, prefixPaths, implementationSpecificPaths)) =>
      var sortedPaths := exactPaths;
      sortedPaths := sortedPaths + SortByLength(prefixPaths);
      sortedPaths := sortedPaths + implementationSpecificPaths;
      r := Ok(sortedPaths);
  }

  // ---------------------------------------------------------------- path patterns

  function TrimSlash(path: string): string {
    if path != "" && path[|path| - 1] == '/' then path[..|path| - 1] else path
  }

  function PrefixPatterns(path: string): Result<Patterns, PathError> {
    if path == "/" then Ok(Patterns(["/*"], []))
    else if !Glob.WildcardFree(path) then Err(WildcardInPath(path))
    else Ok(Patterns([TrimSlash(path), TrimSlash(path) + "/*"], []))
  }

  function ExactPatterns(path: string): Result<Patterns, PathError> {
    if !Glob.WildcardFree(path) then Err(WildcardInPath(path)) else Ok(Patterns([path], []))
  }

  /** `useRegex` is the regular-expression annotation of the Ingress, which may be malformed. */
  function ImplementationSpecificPatterns(useRegex: Result<bool, PathError>, path: string): Result<Patterns, PathError>
    requires path != ""
  {
    match useRegex
    case Err(e) => Err(e)
    case Ok(use) => if use then Ok(Patterns([], [path[1..]])) else Ok(Patterns([path], []))
  }

  function PathPatterns(useRegex: Result<bool, PathError>, p: IngressPath): Result<Patterns, PathError>
    requires p.path != ""
  {
    match Kind(p)
    case ImplementationSpecific => ImplementationSpecificPatterns(useRegex, p.path)
    case Exact => ExactPatterns(p.path)
    case Prefix => PrefixPatterns(p.path)
    case UnknownType(_) => Err(UnknownPathType(p.path))
  }

  lemma PrefixCons<T>(x: T, xs: seq<T>, y: T, ys: seq<T>)
    ensures [x] + xs <= [y] + ys <==> x == y && xs <= ys
  {
    assert ([x] + xs)[0] == x && ([x] + xs)[1..] == xs;
    assert ([y] + ys)[0] == y && ([y] + ys)[1..] == ys;
    if [x] + xs <= [y] + ys {
      assert xs == ([y] + ys)[1..|xs| + 1] == ys[..|xs|];
    }
  }

  lemma SplitFirst(s: string)
    requires s != ""
    ensures s[0] == '/' ==> Text.Split(s, '/') == [""] + Text.Split(s[1..], '/')
    ensures s[0] != '/' ==> var rest := Text.Split(s[1..], '/'); Text.Split(s, '/') == [[s[0]] + rest[0]] + rest[1..]
    ensures if s[0] == '/' then Text.Split(s, '/')[0] == "" && |Text.Split(s, '/')| > 1
            else |Text.Split(s, '/')[0]| > 0 && Text.Split(s, '/')[0][0] == s[0]
  {
  }

  /** Adding a character that is no slash at the front of two texts keeps the relation of their
      elements. */
  lemma ExtendFirst(c: char, ns: seq<string>, ss: seq<string>)
    requires ns != [] && ss != []
    ensures [[c] + ns[0]] + ns[1..] <= [[c] + ss[0]] + ss[1..] <==> ns <= ss
  {
    PrefixCons([c] + ns[0], ns[1..], [c] + ss[0], ss[1..]);
    PrefixCons(ns[0], ns[1..], ss[0], ss[1..]);
    assert ns == [ns[0]] + ns[1..] && ss == [ss[0]] + ss[1..];
    assert ([c] + ns[0])[1..] == ns[0] && ([c] + ss[0])[1..] == ss[0];
  }

  lemma ContinuesCons(n: string, s: string)
    requires n != "" && s != "" && n[0] == s[0]
    ensures (s == n || n + "/" <= s) <==> (s[1..] == n[1..] || n[1..] + "/" <= s[1..])
  {
    assert n == [n[0]] + n[1..] && s == [s[0]] + s[1..];
    PrefixCons(n[0], n[1..] + "/", s[0], s[1..]);
    assert n + "/" == [n[0]] + (n[1..] + "/");
  }

  /** Splitting on slashes turns "equal or continued after a slash" into element-wise prefix. */
  lemma {:induction false} SplitPrefix(n: string, s: string)
    ensures Text.Split(n, '/') <= Text.Split(s, '/') <==> s == n || n + "/" <= s
  {
    if n == "" {
      assert n + "/" == "/";
      if s != "" {
        SplitFirst(s);
      }
    } else if s == "" {
      SplitFirst(n);
    } else {
      SplitFirst(n);
      SplitFirst(s);
      if n[0] == s[0] {
        SplitPrefix(n[1..], s[1..]);
        ContinuesCons(n, s);
        if n[0] == '/' {
          PrefixCons("", Text.Split(n[1..], '/'), "", Text.Split(s[1..], '/'));
        } else {
          ExtendFirst(n[0], Text.Split(n[1..], '/'), Text.Split(s[1..], '/'));
        }
      } else {
        assert Text.Split(n, '/')[0] != Text.Split(s, '/')[0];
        assert !(n + "/" <= s) by {
          assert (n + "/")[0] == n[0];
        }
      }
    }
  }

  /** The Kubernetes meaning of a Prefix path: element-wise prefix after trimming one slash. */
  ghost predicate ElementWisePrefix(path: string, requestPath: string) {
    Text.Split(TrimSlash(path), '/') <= Text.Split(requestPath, '/')
  }

  /** The globs generated for a Prefix path mean element-wise prefix. */
  lemma PrefixPatternsMeanElementWisePrefix(path: string, requestPath: string)
    requires Glob.WildcardFree(path) && requestPath != ""
    ensures PrefixPatterns(path).Ok?
    ensures (exists v :: v in PrefixPatterns(path).value.values && Glob.Matches(v, requestPath)) <==>
              ElementWisePrefix(path, requestPath)
  {
    var n := TrimSlash(path);
    SplitPrefix(n, requestPath);
    Glob.LiteralMatchesItself(n, requestPath);
    Glob.LiteralStarMatchesExtensions(n + "/", requestPath);
    assert n + "/" + "*" == n + "/*";
    if path == "/" {
      assert PrefixPatterns(path).value.values == ["/*"] && n + "/*" == "/*";
    } else {
      var vs := PrefixPatterns(path).value.values;
      assert vs == [n, n + "/*"] && vs[0] in vs && vs[1] in vs;
    }
  }

  /** Of two matching prefixes the one with more bytes is the longer one, and two of equal length are
      the same text. */
  lemma MatchingPrefixesCompare(a: string, b: string, requestPath: string)
    requires a != "" && b != "" && Text.Utf8Length(a) <= Text.Utf8Length(b)
    requires ElementWisePrefix(a, requestPath) && ElementWisePrefix(b, requestPath)
    ensures |a| < |b| || a == b
    ensures Text.Utf8Length(a) == Text.Utf8Length(b) ==> a == b
  {
    var t := requestPath + "/";
    SplitPrefix(TrimSlash(a), requestPath);
    SplitPrefix(TrimSlash(b), requestPath);
    TrimmedPrefix(a, requestPath);
    TrimmedPrefix(b, requestPath);
    assert a <= t && b <= t;
    if |a| >= |b| {
      assert b <= a;
      Text.Utf8LengthOfPrefix(b, a);
    } else {
      assert a <= b;
      Text.Utf8LengthOfPrefix(a, b);
    }
  }

  lemma TrimmedPrefix(a: string, s: string)
    requires a != "" && (s == TrimSlash(a) || TrimSlash(a) + "/" <= s)
    ensures a <= s || (a == s + "/")
  {
    if a[|a| - 1] == '/' {
      assert a == TrimSlash(a) + "/";
    } else if s != a {
      assert a <= a + "/" <= s;
    }
  }

  // ---------------------------------------------------------------- rule conditions

  /** A condition from the conditions annotation; `detail` is the configuration of the kinds
      other than host and path, absent when it is missing. */
  datatype BackendCondition = BackendCondition(
    field: Field, hostConfig: Option<Patterns>, pathConfig: Option<Patterns>, detail: Option<string>)

  datatype Parts = Parts(
    hostValues: seq<string>, hostRegexValues: seq<string>,
    pathValues: seq<string>, pathRegexValues: seq<string>, conditions: seq<Condition>)

  function AddCondition(p: Parts, b: BackendCondition): Result<Parts, PathError> {
    match b.field
    case HostHeader =>
      if b.hostConfig.None? then Err(MissingConfig(b.field))
      else Ok(p.(hostValues := p.hostValues + b.hostConfig.value.values,
                 hostRegexValues := p.hostRegexValues + b.hostConfig.value.regexValues))
    case PathPattern =>
      if b.pathConfig.None? then Err(MissingConfig(b.field))
      else Ok(p.(pathValues := p.pathValues + b.pathConfig.value.values,
                 pathRegexValues := p.pathRegexValues + b.pathConfig.value.regexValues))
    case _ =>
      if b.detail.None? then Err(MissingConfig(b.field))
      else Ok(p.(conditions := p.conditions + [Condition(b.field, None, None, b.detail.value)]))
  }

  function Collect(p: Parts, bs: seq<BackendCondition>): Result<Parts, PathError>
    decreases bs
  {
    if bs == [] then Ok(p)
    else match AddCondition(p, bs[0])
         case Err(e) => Err(e)
         case Ok(more) => Collect(more, bs[1..])
  }

  function HostCondition(values: seq<string>, regexValues: seq<string>): seq<Condition> {
    if values == [] && regexValues == [] then []
    else [Condition(HostHeader, Some(Patterns(values, regexValues)), None, "")]
  }

  function PathCondition(values: seq<string>, regexValues: seq<string>): seq<Condition> {
    if values == [] && regexValues == [] then []
    else [Condition(PathPattern, None, Some(Patterns(values, regexValues)), "")]
  }

  function Assemble(p: Parts): Result<seq<Condition>, PathError> {
    if p.hostValues != [] && p.hostRegexValues != [] then Err(BothHostKinds)
    else if p.pathValues != [] && p.pathRegexValues != [] then Err(BothPathKinds)
    else
      var cs := p.conditions + HostCondition(p.hostValues, p.hostRegexValues) + PathCondition(p.pathValues, p.pathRegexValues);
      Ok(if cs == [] then PathCondition(["/*"], []) else cs)
  }

  function StartParts(useRegex: Result<bool, PathError>, host: string, path: IngressPath): Result<Parts, PathError> {
    var hosts := if host != "" then [host] else [];
    if path.path == "" then Ok(Parts(hosts, [], [], [], []))
    else match PathPatterns(useRegex, path)
         case Err(e) => Err(e)
         case Ok(ps) => Ok(Parts(hosts, [], ps.values, ps.regexValues, []))
  }

  function RuleConditions(useRegex: Result<bool, PathError>, host: string, path: IngressPath, bs: seq<BackendCondition>)
    : Result<seq<Condition>, PathError>
  {
    match StartParts(useRegex, host, path)
    case Err(e) => Err(e)
    case Ok(start) =>
      match Collect(start, bs)
      case Err(e) => Err(e)
      case Ok(parts) => Assemble(parts)
  }

  method BuildRuleConditions(useRegex: Result<bool, PathError>, host: string, path: IngressPath, bs: seq<BackendCondition>)
    returns (r: Result<seq<Condition>, PathError>)
    ensures r == RuleConditions(useRegex, host, path, bs)
  {
    var hostValues, hostRegexValues, pathValues, pathRegexValues := [], [], [], [];
    if host != "" {
      hostValues := [host];
    }
    if path.path != "" {
      var patterns := PathPatterns(useRegex, path);
      if patterns.Err? {
        return Err(patterns.error);
      }
      pathValues, pathRegexValues := patterns.value.values, patterns.value.regexValues;
    }
    var conditions: seq<Condition> := [];
    ghost var start := Parts(hostValues, hostRegexValues, pathValues, pathRegexValues, conditions);
    assert StartParts(useRegex, host, path) == Ok(start);
    for i := 0 to |bs|
      invariant Collect(start, bs) == Collect(Parts(hostValues, hostRegexValues, pathValues, pathRegexValues, conditions), bs[i..])
    {
      var b := bs[i];
      assert bs[i..] == [b] + bs[i + 1..];
      ghost var parts := Parts(hostValues, hostRegexValues, pathValues, pathRegexValues, conditions);
      assert AddCondition(parts, b).Err? ==> Collect(parts, bs[i..]) == Err(AddCondition(parts, b).error);
      match b.field
      case HostHeader =>
        if b.hostConfig.None? {
          return Err(MissingConfig(b.field));
        }
        hostValues := hostValues + b.hostConfig.value.values;
        hostRegexValues := hostRegexValues + b.hostConfig.value.regexValues;
      case PathPattern =>
        if b.pathConfig.None? {
          return Err(MissingConfig(b.field));
        }
        pathValues := pathValues + b.pathConfig.value.values;
        pathRegexValues := pathRegexValues + b.pathConfig.value.regexValues;
      case _ =>
        if b.detail.None? {
          return Err(MissingConfig(b.field));
        }
        conditions := conditions + [Condition(b.field, None, None, b.detail.value)];
    }
    assert Collect(start, bs) == Ok(Parts(hostValues, hostRegexValues, pathValues, pathRegexValues, conditions));
    if hostValues != [] && hostRegexValues != [] {
      return Err(BothHostKinds);
    }
    if pathValues != [] && pathRegexValues != [] {
      return Err(BothPathKinds);
    }
    conditions := conditions + HostCondition(hostValues, hostRegexValues);
    conditions := conditions + PathCondition(pathValues, pathRegexValues);
    if conditions == [] {
      conditions := PathCondition(["/*"], []);
    }
    r := Ok(conditions);
  }

  lemma {:induction false} CollectKeepsOthersApart(p: Parts, bs: seq<BackendCondition>)
    requires Collect(p, bs).Ok? && forall c :: c in p.conditions ==> !c.IsHost() && !c.IsPath()
    ensures forall c :: c in Collect(p, bs).value.conditions ==> !c.IsHost() && !c.IsPath()
    decreases bs
  {
    if bs != [] {
      CollectKeepsOthersApart(AddCondition(p, bs[0]).value, bs[1..]);
    }
  }

  /** Whatever the annotations say, emitted conditions have the shape the optimizer relies on. */
  lemma RuleConditionsShaped(useRegex: Result<bool, PathError>, host: string, path: IngressPath, bs: seq<BackendCondition>)
    requires RuleConditions(useRegex, host, path, bs).Ok?
    ensures Shaped(RuleConditions(useRegex, host, path, bs).value)
    ensures RuleConditions(useRegex, host, path, bs).value != []
  {
    var start := StartParts(useRegex, host, path).value;
    var p := Collect(start, bs).value;
    CollectKeepsOthersApart(start, bs);
    var hs, ps := HostCondition(p.hostValues, p.hostRegexValues), PathCondition(p.pathValues, p.pathRegexValues);
    var cs := p.conditions + hs + ps;
    forall i | 0 <= i < |cs|
      ensures cs[i].IsHost() ==> i == |p.conditions| && Exclusive(cs[i].hostConfig.value)
      ensures cs[i].IsPath() ==> i == |p.conditions| + |hs| && Exclusive(cs[i].pathConfig.value)
    {
      if i < |p.conditions| {
        assert cs[i] in p.conditions;
      }
    }
  }

  // ---------------------------------------------------------------- which path serves a request

  /** One host rule under one reading of regular expressions; `conditions` gives the condition
      annotations of the backend of a path. */
  datatype Context = Context(
    sem: Semantics, host: string, useRegex: Result<bool, PathError>, conditions: IngressPath -> seq<BackendCondition>)

  function Compiled(ctx: Context, p: IngressPath): Result<seq<Condition>, PathError> {
    RuleConditions(ctx.useRegex, ctx.host, p, ctx.conditions(p))
  }

  /** No path has condition annotations. */
  ghost predicate Plain(ctx: Context, paths: seq<IngressPath>) {
    forall p :: p in paths ==> ctx.conditions(p) == []
  }

  ghost predicate Serves(ctx: Context, p: IngressPath, q: Request) {
    Compiled(ctx, p).Ok? && ConditionsMatch(ctx.sem, Compiled(ctx, p).value, q)
  }

  /** The first path of a list whose compiled conditions match the request. */
  ghost function FirstServing(ctx: Context, paths: seq<IngressPath>, q: Request): Option<IngressPath> {
    if paths == [] then None
    else if Serves(ctx, paths[0], q) then Some(paths[0])
    else FirstServing(ctx, paths[1..], q)
  }

  ghost predicate HostServes(ctx: Context, q: Request) {
    ctx.host == "" || HostGlobMatches(ctx.host, q.host)
  }

  function HostOnly(host: string): seq<Condition> {
    HostCondition(if host != "" then [host] else [], [])
  }

  function PathOnly(useRegex: Result<bool, PathError>, p: IngressPath): seq<Condition>
    requires p.path != "" ==> PathPatterns(useRegex, p).Ok?
  {
    if p.path == "" then []
    else PathCondition(PathPatterns(useRegex, p).value.values, PathPatterns(useRegex, p).value.regexValues)
  }

  /** The conditions of a path without annotations. */
  lemma PlainConditions(useRegex: Result<bool, PathError>, host: string, p: IngressPath)
    requires RuleConditions(useRegex, host, p, []).Ok?
    ensures p.path != "" ==> PathPatterns(useRegex, p).Ok?
    ensures RuleConditions(useRegex, host, p, []).value ==
              if HostOnly(host) + PathOnly(useRegex, p) == [] then PathCondition(["/*"], [])
              else HostOnly(host) + PathOnly(useRegex, p)
  {
    var start := StartParts(useRegex, host, p).value;
    assert Collect(start, []) == Ok(start);
    assert [] + HostOnly(host) + PathOnly(useRegex, p) == HostOnly(host) + PathOnly(useRegex, p);
  }

  lemma ConcatMatches(sem: Semantics, a: seq<Condition>, b: seq<Condition>, q: Request)
    ensures ConditionsMatch(sem, a + b, q) <==> ConditionsMatch(sem, a, q) && ConditionsMatch(sem, b, q)
  {
    assert forall c :: c in a + b <==> c in a || c in b;
  }

  lemma HostOnlyMatches(ctx: Context, q: Request)
    ensures ConditionsMatch(ctx.sem, HostOnly(ctx.host), q) <==> HostServes(ctx, q)
  {
    if ctx.host != "" {
      var c := HostOnly(ctx.host)[0];
      assert HostOnly(ctx.host) == [c] && ctx.host in c.hostConfig.value.values;
      assert ConditionMatches(ctx.sem, c, q) <==> HostMatches(ctx.sem, c.hostConfig.value, q.host);
    }
  }

  lemma PathOnlyMatches(ctx: Context, p: IngressPath, q: Request)
    requires p.path != "" ==> PathPatterns(ctx.useRegex, p).Ok?
    ensures ConditionsMatch(ctx.sem, PathOnly(ctx.useRegex, p), q) <==>
              p.path == "" || PathMatches(ctx.sem, PathPatterns(ctx.useRegex, p).value, q.path)
  {
    if p.path != "" {
      var c := PathOnly(ctx.useRegex, p)[0];
      assert PathOnly(ctx.useRegex, p) == [c];
      assert ConditionMatches(ctx.sem, c, q) <==> PathMatches(ctx.sem, c.pathConfig.value, q.path);
    }
  }

  lemma SlashStarMatches(sem: Semantics, q: Request)
    requires q.HasAbsolutePath()
    ensures ConditionsMatch(sem, PathCondition(["/*"], []), q)
  {
    Glob.LiteralStarMatchesExtensions("/", q.path);
    assert "/" + "*" == "/*" && "/*" in ["/*"];
  }

  /** Without annotations a path serves a request iff the host matches and one pattern of the
      path does; an empty path serves every request. */
  lemma ServesMeaning(ctx: Context, p: IngressPath, q: Request)
    requires q.HasAbsolutePath() && Compiled(ctx, p).Ok? && ctx.conditions(p) == []
    ensures p.path != "" ==> PathPatterns(ctx.useRegex, p).Ok?
    ensures Serves(ctx, p, q) <==>
              HostServes(ctx, q) && (p.path == "" || PathMatches(ctx.sem, PathPatterns(ctx.useRegex, p).value, q.path))
  {
    PlainConditions(ctx.useRegex, ctx.host, p);
    ConcatMatches(ctx.sem, HostOnly(ctx.host), PathOnly(ctx.useRegex, p), q);
    HostOnlyMatches(ctx, q);
    PathOnlyMatches(ctx, p, q);
    SlashStarMatches(ctx.sem, q);
  }

  lemma ExactServes(ctx: Context, p: IngressPath, q: Request)
    requires q.HasAbsolutePath() && Compiled(ctx, p).Ok? && ctx.conditions(p) == [] && HostServes(ctx, q)
    requires Kind(p) == Exact && p.path != ""
    ensures Serves(ctx, p, q) <==> p.path == q.path
  {
    ServesMeaning(ctx, p, q);
    Glob.LiteralMatchesItself(p.path, q.path);
    assert p.path in PathPatterns(ctx.useRegex, p).value.values;
  }

  lemma PrefixServes(ctx: Context, p: IngressPath, q: Request)
    requires q.HasAbsolutePath() && Compiled(ctx, p).Ok? && ctx.conditions(p) == [] && HostServes(ctx, q)
    requires Kind(p) == Prefix && p.path != ""
    ensures Serves(ctx, p, q) <==> ElementWisePrefix(p.path, q.path)
  {
    ServesMeaning(ctx, p, q);
    PrefixPatternsMeanElementWisePrefix(p.path, q.path);
  }

  lemma {:induction false} FirstServingConcat(ctx: Context, a: seq<IngressPath>, b: seq<IngressPath>, q: Request)
    ensures FirstServing(ctx, a + b, q) ==
              if FirstServing(ctx, a, q).Some? then FirstServing(ctx, a, q) else FirstServing(ctx, b, q)
  {
    if a == [] {
      assert a + b == b;
    } else {
      FirstServingConcat(ctx, a[1..], b, q);
      assert (a + b)[1..] == a[1..] + b;
    }
  }

  /** p is the first of the wanted paths that serves the request. */
  ghost predicate FirstWanted(ctx: Context, paths: seq<IngressPath>, w: Want, q: Request, p: IngressPath) {
    exists i :: 0 <= i < |paths| && paths[i] == p && Wanted(w, p) && Serves(ctx, p, q)
                && forall j :: 0 <= j < i && Wanted(w, paths[j]) ==> !Serves(ctx, paths[j], q)
  }

  lemma {:induction false} FirstServingOfFilter(ctx: Context, paths: seq<IngressPath>, w: Want, q: Request)
    ensures FirstServing(ctx, Filter(paths, w), q).Some? ==>
              FirstWanted(ctx, paths, w, q, FirstServing(ctx, Filter(paths, w), q).value)
    ensures FirstServing(ctx, Filter(paths, w), q).None? ==>
              forall p :: p in paths && Wanted(w, p) ==> !Serves(ctx, p, q)
  {
    if paths != [] {
      FirstServingOfFilter(ctx, paths[1..], w, q);
      if Wanted(w, paths[0]) {
        assert Filter(paths, w)[1..] == Filter(paths[1..], w);
      } else {
        assert Filter(paths, w) == Filter(paths[1..], w);
      }
      var r := FirstServing(ctx, Filter(paths, w), q);
      if !(Wanted(w, paths[0]) && Serves(ctx, paths[0], q)) && r.Some? {
        var i :| 0 <= i < |paths[1..]| && paths[1..][i] == r.value
                 && forall j :: 0 <= j < i && Wanted(w, paths[1..][j]) ==> !Serves(ctx, paths[1..][j], q);
        assert paths[i + 1] == r.value;
        forall j | 0 <= j < i + 1 && Wanted(w, paths[j]) ensures !Serves(ctx, paths[j], q) {
          if j > 0 {
            assert paths[1..][j - 1] == paths[j];
          }
        }
      }
    }
  }

  lemma {:induction false} FilterTwice(paths: seq<IngressPath>, k: PathType, n: nat)
    ensures Filter(Filter(paths, OfKind(k)), OfLength(n)) == Filter(paths, OfKindAndLength(k, n))
  {
    if paths != [] {
      FilterTwice(paths[1..], k, n);
      if Kind(paths[0]) == k {
        assert Filter(paths, OfKind(k))[1..] == Filter(paths[1..], OfKind(k));
      } else {
        assert Filter(paths, OfKind(k)) == Filter(paths[1..], OfKind(k));
        assert Filter(paths, OfKindAndLength(k, n)) == Filter(paths[1..], OfKindAndLength(k, n));
      }
    }
  }

  lemma {:induction false} FirstServingIsLongest(ctx: Context, sorted: seq<IngressPath>, q: Request)
    requires LongestFirst(sorted) && FirstServing(ctx, sorted, q).Some?
    ensures var p := FirstServing(ctx, sorted, q).value;
            && p in sorted && Serves(ctx, p, q)
            && (forall e :: e in sorted && Serves(ctx, e, q) ==> Length(e) <= Length(p))
            && FirstServing(ctx, Filter(sorted, OfLength(Length(p))), q) == Some(p)
  {
    var p := FirstServing(ctx, sorted, q).value;
    if Serves(ctx, sorted[0], q) {
      forall e | e in sorted ensures Length(e) <= Length(p) {
        var i :| 0 <= i < |sorted| && sorted[i] == e;
      }
    } else {
      FirstServingIsLongest(ctx, sorted[1..], q);
      assert sorted == [sorted[0]] + sorted[1..];
      if Length(sorted[0]) == Length(p) {
        assert Filter(sorted, OfLength(Length(p)))[1..] == Filter(sorted[1..], OfLength(Length(p)));
      } else {
        assert Filter(sorted, OfLength(Length(p))) == Filter(sorted[1..], OfLength(Length(p)));
      }
    }
  }

  lemma {:induction false} NothingServes(ctx: Context, paths: seq<IngressPath>, q: Request)
    ensures FirstServing(ctx, paths, q).None? <==> forall p :: p in paths ==> !Serves(ctx, p, q)
  {
    if paths != [] {
      NothingServes(ctx, paths[1..], q);
      assert paths == [paths[0]] + paths[1..];
    }
  }

  /** What the Kubernetes API server guarantees of Exact and Prefix paths, and that the build
      did not stop with an error. */
  ghost predicate Accepted(ctx: Context, paths: seq<IngressPath>) {
    forall p :: p in paths ==> Compiled(ctx, p).Ok? && !Kind(p).UnknownType?
                               && (Kind(p) == Exact || Kind(p) == Prefix ==> p.path != "" && p.path[0] == '/')
  }

  ghost predicate HasExact(paths: seq<IngressPath>, q: Request) {
    exists p :: p in paths && Kind(p) == Exact && p.path == q.path
  }

  ghost predicate HasPrefix(paths: seq<IngressPath>, q: Request) {
    exists p :: p in paths && Kind(p) == Prefix && ElementWisePrefix(p.path, q.path)
  }

  /** The documented choice: an Exact path equal to the request path; else the longest Prefix path
      that is an element-wise prefix of it; else the first ImplementationSpecific path that
      matches. Among equals the earliest in the Ingress. */
  ghost predicate Chosen(ctx: Context, paths: seq<IngressPath>, q: Request, p: IngressPath) {
    if HasExact(paths, q) then FirstWanted(ctx, paths, OfKind(Exact), q, p) && p.path == q.path
    else if HasPrefix(paths, q) then
      && Kind(p) == Prefix && ElementWisePrefix(p.path, q.path)
      && (forall e :: e in paths && Kind(e) == Prefix && ElementWisePrefix(e.path, q.path) ==>
            |e.path| < |p.path| || e.path == p.path)
      && FirstWanted(ctx, paths, OfKindAndLength(Prefix, Length(p)), q, p)
    else FirstWanted(ctx, paths, OfKind(ImplementationSpecific), q, p)
  }

  lemma ExactPart(ctx: Context, paths: seq<IngressPath>, q: Request)
    requires q.HasAbsolutePath() && HostServes(ctx, q) && Accepted(ctx, paths) && Plain(ctx, paths)
    ensures var r := FirstServing(ctx, Filter(paths, OfKind(Exact)), q);
            if HasExact(paths, q) then r.Some? && Chosen(ctx, paths, q, r.value) else r.None?
  {
    var exacts := Filter(paths, OfKind(Exact));
    forall p | p in paths && Kind(p) == Exact ensures Serves(ctx, p, q) <==> p.path == q.path {
      ExactServes(ctx, p, q);
    }
    FirstServingOfFilter(ctx, paths, OfKind(Exact), q);
    NothingServes(ctx, exacts, q);
    forall p ensures p in exacts <==> p in paths && Kind(p) == Exact {
      FilterElements(paths, OfKind(Exact), p);
    }
  }

  lemma PrefixPart(ctx: Context, paths: seq<IngressPath>, q: Request)
    requires q.HasAbsolutePath() && HostServes(ctx, q) && Accepted(ctx, paths) && Plain(ctx, paths) && !HasExact(paths, q)
    ensures var r := FirstServing(ctx, SortByLength(Filter(paths, OfKind(Prefix))), q);
            if HasPrefix(paths, q) then r.Some? && Chosen(ctx, paths, q, r.value) else r.None?
  {
    var prefixes := Filter(paths, OfKind(Prefix));
    var sorted := SortByLength(prefixes);
    SortByLengthCorrect(prefixes);
    forall p ensures p in sorted <==> p in paths && Kind(p) == Prefix {
      FilterElements(paths, OfKind(Prefix), p);
    }
    forall p | p in sorted ensures Serves(ctx, p, q) <==> ElementWisePrefix(p.path, q.path) {
      PrefixServes(ctx, p, q);
    }
    NothingServes(ctx, sorted, q);
    if HasPrefix(paths, q) {
      FirstServingIsLongest(ctx, sorted, q);
      var p := FirstServing(ctx, sorted, q).value;
      FilterTwice(paths, Prefix, Length(p));
      FirstServingOfFilter(ctx, paths, OfKindAndLength(Prefix, Length(p)), q);
      forall e | e in paths && Kind(e) == Prefix && ElementWisePrefix(e.path, q.path)
        ensures |e.path| < |p.path| || e.path == p.path
      {
        assert e in sorted;
        MatchingPrefixesCompare(e.path, p.path, q.path);
      }
    }
  }

  /** Sorting and compiling implement the documented choice, and a request is left unserved only
      when no path of the Ingress serves it. */
  lemma PathSelection(ctx: Context, paths: seq<IngressPath>, q: Request)
    requires q.HasAbsolutePath() && HostServes(ctx, q) && Accepted(ctx, paths) && Plain(ctx, paths)
    ensures match FirstServing(ctx, Sorted(paths), q)
            case Some(p) => Chosen(ctx, paths, q, p)
            case None => !HasExact(paths, q) && !HasPrefix(paths, q) && forall p :: p in paths ==> !Serves(ctx, p, q)
  {
    var exacts, impls := Filter(paths, OfKind(Exact)), Filter(paths, OfKind(ImplementationSpecific));
    var sorted := SortByLength(Filter(paths, OfKind(Prefix)));
    ExactPart(ctx, paths, q);
    FirstServingConcat(ctx, exacts + sorted, impls, q);
    FirstServingConcat(ctx, exacts, sorted, q);
    if !HasExact(paths, q) {
      PrefixPart(ctx, paths, q);
      FirstServingOfFilter(ctx, paths, OfKind(ImplementationSpecific), q);
      if !HasPrefix(paths, q) && FirstServing(ctx, impls, q).None? {
        forall p | p in paths ensures !Serves(ctx, p, q) {
          match Kind(p)
          case Exact => ExactServes(ctx, p, q);
          case Prefix => PrefixServes(ctx, p, q);
          case ImplementationSpecific =>
        }
      }
    }
  }

  lemma SortedElements(paths: seq<IngressPath>)
    ensures forall p :: p in Sorted(paths) <==> p in paths && !Kind(p).UnknownType?
  {
    SortByLengthCorrect(Filter(paths, OfKind(Prefix)));
    forall p ensures p in Sorted(paths) <==> p in paths && !Kind(p).UnknownType? {
      FilterElements(paths, OfKind(Exact), p);
      FilterElements(paths, OfKind(Prefix), p);
      FilterElements(paths, OfKind(ImplementationSpecific), p);
    }
  }

  lemma {:induction false} FirstServingIsElement(ctx: Context, paths: seq<IngressPath>, q: Request)
    ensures FirstServing(ctx, paths, q).Some? ==>
              FirstServing(ctx, paths, q).value in paths && Serves(ctx, FirstServing(ctx, paths, q).value, q)
  {
    if paths != [] && !Serves(ctx, paths[0], q) {
      FirstServingIsElement(ctx, paths[1..], q);
    }
  }

  /** The sorted order, by the path types as given: Exact paths first, then Prefix paths with more bytes
      first, then the rest; nothing is added or lost. */
  lemma SortedByType(paths: seq<IngressPath>)
    requires FirstUnknown(paths) == None
    ensures forall p :: p in Sorted(paths) <==> p in paths
    ensures forall i, j :: 0 <= i < j < |Sorted(paths)| ==> GoesFirst(Sorted(paths)[i], Sorted(paths)[j])
  {
    SortedElements(paths);
    var exacts, impls := Filter(paths, OfKind(Exact)), Filter(paths, OfKind(ImplementationSpecific));
    var prefixes := SortByLength(Filter(paths, OfKind(Prefix)));
    SortByLengthCorrect(Filter(paths, OfKind(Prefix)));
    forall p ensures p in exacts ==> p.pathType == Some(Exact) {
      FilterElements(paths, OfKind(Exact), p);
    }
    forall p ensures p in prefixes ==> p.pathType == Some(Prefix) {
      FilterElements(paths, OfKind(Prefix), p);
    }
    forall p ensures p in impls ==> p.pathType == None || p.pathType == Some(ImplementationSpecific) {
      FilterElements(paths, OfKind(ImplementationSpecific), p);
    }
    ThreeParts(exacts, prefixes, impls);
  }

  /** a may stand before b. */
  predicate GoesFirst(a: IngressPath, b: IngressPath) {
    && (b.pathType == Some(Exact) ==> a.pathType == Some(Exact))
    && (b.pathType == Some(Prefix) ==> a.pathType == Some(Exact) || a.pathType == Some(Prefix))
    && (a.pathType == Some(Prefix) && b.pathType == Some(Prefix) ==> Text.Utf8Length(a.path) >= Text.Utf8Length(b.path))
  }

  lemma ThreeParts(a: seq<IngressPath>, b: seq<IngressPath>, c: seq<IngressPath>)
    requires (forall p :: p in a ==> p.pathType == Some(Exact)) && (forall p :: p in b ==> p.pathType == Some(Prefix)) && LongestFirst(b)
    requires forall p :: p in c ==> p.pathType == None || p.pathType == Some(ImplementationSpecific)
    ensures forall i, j :: 0 <= i < j < |a + b + c| ==> GoesFirst((a + b + c)[i], (a + b + c)[j])
  {
  }

  /** A path without a trailing slash is an element-wise prefix of itself and of what continues it after
      a slash; a trailing slash makes no difference. */
  lemma ElementWisePrefixMeaning(path: string, requestPath: string)
    requires path == "" || path[|path| - 1] != '/'
    ensures ElementWisePrefix(path, requestPath) <==> requestPath == path || path + "/" <= requestPath
    ensures ElementWisePrefix(path + "/", requestPath) <==> ElementWisePrefix(path, requestPath)
  {
    SplitPrefix(path, requestPath);
    assert TrimSlash(path) == path;
    assert (path + "/")[|path + "/"| - 1] == '/' && (path + "/")[..|path|] == path;
  }
}
