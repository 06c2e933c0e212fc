/** Merging the listener configurations that the members of an Ingress group give for one port. */
module ListenPortMerge {
  import opened Options

  datatype Cert = Cert(dependency: Option<(string, string)>, arn: string)
  {
    /** Identity for deduplication: type and id of the certificate resource, else its ARN. */
    function Key(): string {
      if dependency.Some? && dependency.value.0 != "" && dependency.value.1 != ""
      then dependency.value.0 + "/" + dependency.value.1 else arn
    }
  }

  datatype PortConfig = PortConfig(
    protocol: string, inboundCIDRv4s: seq<string>, inboundCIDRv6s: seq<string>, prefixLists: seq<string>,
    sslPolicy: Option<string>, tlsCerts: seq<Cert>, mutualAuthentication: Option<string>)

  /** Lists that the source keeps as sets and returns sorted are sets here. */
  datatype Merged = Merged(
    protocol: string, inboundCIDRv4s: set<string>, inboundCIDRv6s: set<string>, prefixLists: set<string>,
    sslPolicy: Option<string>, tlsCerts: seq<Cert>, mutualAuthentication: Option<string>)

  datatype MergeError = ProtocolConflict | CIDRConflict | PrefixListConflict | SSLPolicyConflict | MutualAuthConflict

  function SetOf(s: seq<string>): set<string> {
    set x | x in s
  }

  // ---------------------------------------------------------------- the settings a config may give

  function ProtocolOf(c: PortConfig): Option<string> {
    Some(c.protocol)
  }

  function CIDRsOf(c: PortConfig): Option<(set<string>, set<string>)> {
    if c.inboundCIDRv4s == [] && c.inboundCIDRv6s == [] then None
    else Some((SetOf(c.inboundCIDRv4s), SetOf(c.inboundCIDRv6s)))
  }

  function PrefixListsOf(c: PortConfig): Option<set<string>> {
    if c.prefixLists == [] then None else Some(SetOf(c.prefixLists))
  }

  function SSLPolicyOf(c: PortConfig): Option<string> {
    c.sslPolicy
  }

  function MutualAuthOf(c: PortConfig): Option<string> {
    c.mutualAuthentication
  }

  predicate Differ<T(==)>(a: Option<T>, b: Option<T>) {
    a.Some? && b.Some? && a != b
  }

  predicate Conflict(a: PortConfig, b: PortConfig) {
    || Differ(ProtocolOf(a), ProtocolOf(b))
    || Differ(CIDRsOf(a), CIDRsOf(b))
    || Differ(PrefixListsOf(a), PrefixListsOf(b))
    || Differ(SSLPolicyOf(a), SSLPolicyOf(b))
    || Differ(MutualAuthOf(a), MutualAuthOf(b))
  }

  ghost predicate Compatible(cfgs: seq<PortConfig>) {
    forall a, b :: a in cfgs && b in cfgs ==> !Conflict(a, b)
  }

  /** v is the setting of every config that gives one, and is given by some config if present. */
  ghost predicate Agreed<T>(cfgs: seq<PortConfig>, setting: PortConfig -> Option<T>, v: Option<T>) {
    && (forall c :: c in cfgs && setting(c).Some? ==> setting(c) == v)
    && (v.Some? ==> exists c :: c in cfgs && setting(c) == v)
  }

  lemma AgreedUnique<T>(cfgs: seq<PortConfig>, others: seq<PortConfig>, setting: PortConfig -> Option<T>, v: Option<T>, w: Option<T>)
    requires (forall c :: c in cfgs <==> c in others) && Agreed(cfgs, setting, v) && Agreed(others, setting, w)
    ensures v == w
  {
  }

  /** The pattern the loop applies to each setting: the first config that gives it provides it, and
      a later one must agree. */
  function Combine<T(==)>(merged: Option<T>, given: Option<T>): Option<Option<T>> {
    if given.None? then Some(merged)
    else if merged.None? then Some(given)
    else if merged == given then Some(merged)
    else None
  }

  lemma CombineAgrees<T(!new)>(cfgs: seq<PortConfig>, c: PortConfig, setting: PortConfig -> Option<T>, v: Option<T>)
    requires Agreed(cfgs, setting, v)
    ensures Combine(v, setting(c)).Some? ==> Agreed(cfgs + [c], setting, Combine(v, setting(c)).value)
    ensures Combine(v, setting(c)).None? ==> exists a :: a in cfgs && Differ(setting(a), setting(c))
  {
    assert c in cfgs + [c];
    if v.Some? {
      var a :| a in cfgs && setting(a) == v;
      assert a in cfgs + [c];
    }
  }

  datatype Settings = Settings(
    protocol: Option<string>, cidrs: Option<(set<string>, set<string>)>, prefixLists: Option<set<string>>,
    sslPolicy: Option<string>, mutualAuthentication: Option<string>)

  ghost predicate SettingsAgreed(cfgs: seq<PortConfig>, s: Settings) {
    && Agreed(cfgs, ProtocolOf, s.protocol)
    && Agreed(cfgs, CIDRsOf, s.cidrs)
    && Agreed(cfgs, PrefixListsOf, s.prefixLists)
    && Agreed(cfgs, SSLPolicyOf, s.sslPolicy)
    && Agreed(cfgs, MutualAuthOf, s.mutualAuthentication)
  }

  /** One round of the loop over the configs. */
  method MergeOne(ghost cfgs: seq<PortConfig>, s: Settings, cfg: PortConfig) returns (r: Result<Settings, MergeError>)
    requires SettingsAgreed(cfgs, s)
    ensures r.Ok? ==> SettingsAgreed(cfgs + [cfg], r.value)
    ensures r.Err? ==> exists a :: a in cfgs && Conflict(a, cfg)
  {
    CombineAgrees(cfgs, cfg, ProtocolOf, s.protocol);
    var protocol := Combine(s.protocol, ProtocolOf(cfg));
    if protocol.None? {
      return Err(ProtocolConflict);
    }
    CombineAgrees(cfgs, cfg, CIDRsOf, s.cidrs);
    var cidrs := Combine(s.cidrs, CIDRsOf(cfg));
    if cidrs.None? {
      return Err(CIDRConflict);
    }
    CombineAgrees(cfgs, cfg, PrefixListsOf, s.prefixLists);
    var prefixLists := Combine(s.prefixLists, PrefixListsOf(cfg));
    if prefixLists.None? {
      return Err(PrefixListConflict);
    }
    CombineAgrees(cfgs, cfg, SSLPolicyOf, s.sslPolicy);
    var sslPolicy := Combine(s.sslPolicy, SSLPolicyOf(cfg));
    if sslPolicy.None? {
      return Err(SSLPolicyConflict);
    }
    CombineAgrees(cfgs, cfg, MutualAuthOf, s.mutualAuthentication);
    var mutualAuth := Combine(s.mutualAuthentication, MutualAuthOf(cfg));
    if mutualAuth.None? {
      return Err(MutualAuthConflict);
    }
    r := Ok(Settings(protocol.value, cidrs.value, prefixLists.value, sslPolicy.value, mutualAuth.value));
  }

  lemma AgreedIsCompatible(cfgs: seq<PortConfig>, s: Settings)
    requires SettingsAgreed(cfgs, s)
    ensures Compatible(cfgs)
  {
    forall a, b | a in cfgs && b in cfgs ensures !Conflict(a, b) {
      assert !Differ(ProtocolOf(a), ProtocolOf(b));
      assert !Differ(CIDRsOf(a), CIDRsOf(b));
      assert !Differ(PrefixListsOf(a), PrefixListsOf(b));
      assert !Differ(SSLPolicyOf(a), SSLPolicyOf(b));
      assert !Differ(MutualAuthOf(a), MutualAuthOf(b));
    }
  }

  method MergeSettings(cfgs: seq<PortConfig>) returns (r: Result<Settings, MergeError>)
    ensures r.Ok? <==> Compatible(cfgs)
    ensures r.Ok? ==> SettingsAgreed(cfgs, r.value)
  {
    var s := Settings(None, None, None, None, None);
    for i := 0 to |cfgs|
      invariant SettingsAgreed(cfgs[..i], s)
    {
      assert cfgs[..i + 1] == cfgs[..i] + [cfgs[i]];
      var next := MergeOne(cfgs[..i], s, cfgs[i]);
      if next.Err? {
        return next;
      }
      s := next.value;
    }
    assert cfgs[..|cfgs|] == cfgs;
    AgreedIsCompatible(cfgs, s);
    r := Ok(s);
  }

  // ---------------------------------------------------------------- certificates

  function AllCerts(cfgs: seq<PortConfig>): seq<Cert> {
    if cfgs == [] then [] else AllCerts(cfgs[..|cfgs| - 1]) + cfgs[|cfgs| - 1].tlsCerts
  }

  function KeysOf(certs: seq<Cert>): set<string> {
    set c | c in certs :: c.Key()
  }

  /** First occurrences by key, in order. */
  function Dedup(certs: seq<Cert>): seq<Cert> {
    if certs == [] then []
    else
      var d, last := Dedup(certs[..|certs| - 1]), certs[|certs| - 1];
      if last.Key() in KeysOf(d) then d else d + [last]
  }

  /** The default certificate first, then the other certificates without duplicates. */
  function MergedCerts(all: seq<Cert>): seq<Cert> {
    if all == [] then [] else [all[0]] + Dedup(all[1..])
  }

  lemma KeysOfConcat(a: seq<Cert>, b: seq<Cert>)
    ensures KeysOf(a + b) == KeysOf(a) + KeysOf(b)
  {
    assert forall c :: c in a + b <==> c in a || c in b;
  }

  lemma KeysOfOne(c: Cert)
    ensures KeysOf([c]) == {c.Key()}
  {
  }

  predicate DistinctKeys(certs: seq<Cert>) {
    forall i, j :: 0 <= i < j < |certs| ==> certs[i].Key() != certs[j].Key()
  }

  lemma {:induction false} DedupKeys(certs: seq<Cert>)
    ensures KeysOf(Dedup(certs)) == KeysOf(certs) && DistinctKeys(Dedup(certs))
  {
    if certs != [] {
      var before, last := certs[..|certs| - 1], certs[|certs| - 1];
      DedupKeys(before);
      assert certs == before + [last];
      KeysOfConcat(before, [last]);
      KeysOfConcat(Dedup(before), [last]);
      KeysOfOne(last);
      var d := Dedup(before);
      forall i | 0 <= i < |d| ensures d[i].Key() in KeysOf(d) {}
    }
  }

  /** The merged list starts with the default certificate, covers exactly the keys of all members,
      and has no duplicate key after its head. */
  lemma MergedCertsCorrect(all: seq<Cert>)
    requires all != []
    ensures MergedCerts(all)[0] == all[0]
    ensures KeysOf(MergedCerts(all)) == KeysOf(all)
    ensures DistinctKeys(MergedCerts(all)[1..])
  {
    DedupKeys(all[1..]);
    assert all == [all[0]] + all[1..];
    KeysOfConcat([all[0]], all[1..]);
    KeysOfConcat([all[0]], Dedup(all[1..]));
    assert MergedCerts(all)[1..] == Dedup(all[1..]);
  }

  /** The first certificate overall is the first one of the first member that has any. */
  lemma {:induction false} FirstCert(cfgs: seq<PortConfig>, k: nat)
    requires k < |cfgs| && cfgs[k].tlsCerts != [] && forall i :: 0 <= i < k ==> cfgs[i].tlsCerts == []
    ensures AllCerts(cfgs) != [] && AllCerts(cfgs)[0] == cfgs[k].tlsCerts[0]
  {
    if k < |cfgs| - 1 {
      FirstCert(cfgs[..|cfgs| - 1], k);
    } else {
      NoCerts(cfgs[..k]);
    }
  }

  lemma {:induction false} NoCerts(cfgs: seq<PortConfig>)
    requires forall i :: 0 <= i < |cfgs| ==> cfgs[i].tlsCerts == []
    ensures AllCerts(cfgs) == []
  {
    if cfgs != [] {
      NoCerts(cfgs[..|cfgs| - 1]);
    }
  }

  function Rest(certs: seq<Cert>): seq<Cert> {
    if certs == [] then [] else certs[1..]
  }

  /** After the certificates `now` have been seen. */
  ghost predicate Progress(head: seq<Cert>, now: seq<Cert>, merged: seq<Cert>, seen: set<string>) {
    merged == head + Dedup(Rest(now)) && seen == KeysOf(Dedup(Rest(now)))
  }

  lemma ProgressStep(head: seq<Cert>, now: seq<Cert>, c: Cert, merged: seq<Cert>, seen: set<string>)
    requires Progress(head, now, merged, seen)
    ensures if now == [] || c.Key() in seen then Progress(head, now + [c], merged, seen)
            else Progress(head, now + [c], merged + [c], seen + {c.Key()})
  {
    if now == [] {
      assert Rest(now + [c]) == [] == Rest(now);
    } else {
      DedupSnoc(now, c);
    }
  }

  /** The first loop: the default certificate and the member that gives it. */
  method FindDefaultCert(cfgs: seq<PortConfig>) returns (merged: seq<Cert>, defaultCertMemberIndex: nat)
    ensures merged == if AllCerts(cfgs) == [] then [] else [AllCerts(cfgs)[0]]
    ensures forall k :: 0 <= k < defaultCertMemberIndex && k < |cfgs| ==> cfgs[k].tlsCerts == []
    ensures (exists c :: c in cfgs && c.tlsCerts != []) ==>
              defaultCertMemberIndex < |cfgs| && cfgs[defaultCertMemberIndex].tlsCerts != []
    ensures cfgs != [] ==> defaultCertMemberIndex < |cfgs|
  {
    for i := 0 to |cfgs|
      invariant forall k :: 0 <= k < i ==> cfgs[k].tlsCerts == []
    {
      if |cfgs[i].tlsCerts| > 0 {
        FirstCert(cfgs, i);
        return [cfgs[i].tlsCerts[0]], i;
      }
    }
    NoCerts(cfgs);
    merged, defaultCertMemberIndex := [], 0;
  }

  lemma ProgressStarts(head: seq<Cert>)
    ensures Progress(head, [], head, {})
  {
  }

  lemma ProgressEnds(all: seq<Cert>, merged: seq<Cert>, seen: set<string>)
    requires Progress(if all == [] then [] else [all[0]], all, merged, seen)
    ensures merged == MergedCerts(all)
  {
  }

  lemma AllCertsSnoc(cfgs: seq<PortConfig>, i: nat)
    requires i < |cfgs|
    ensures AllCerts(cfgs[..i + 1]) == AllCerts(cfgs[..i]) + cfgs[i].tlsCerts
  {
    assert cfgs[..i + 1][..i] == cfgs[..i];
  }

  /** The second loop. */
  method MergeCerts(cfgs: seq<PortConfig>) returns (merged: seq<Cert>)
    ensures merged == MergedCerts(AllCerts(cfgs))
  {
    var defaultCertMemberIndex;
    merged, defaultCertMemberIndex := FindDefaultCert(cfgs);
    ghost var head, before := merged, [];
    var seen: set<string> := {};
    ProgressStarts(head);
    for i := 0 to |cfgs|
      invariant before == AllCerts(cfgs[..i])
      invariant Progress(head, before, merged, seen)
    {
      AllCertsSnoc(cfgs, i);
      if cfgs[i].tlsCerts != [] {
        assert cfgs[i] in cfgs;
        FirstIsDefault(cfgs, i, defaultCertMemberIndex);
      }
      merged, seen := AppendCerts(cfgs[i].tlsCerts, i == defaultCertMemberIndex, head, before, merged, seen);
      before := before + cfgs[i].tlsCerts;
    }
    assert cfgs[..|cfgs|] == cfgs;
    ProgressEnds(AllCerts(cfgs), merged, seen);
  }

  /** The inner loop over the certificates of one member. */
  method AppendCerts(certs: seq<Cert>, isDefaultMember: bool, ghost head: seq<Cert>, ghost before: seq<Cert>, merged0: seq<Cert>, seen0: set<string>)
    returns (merged: seq<Cert>, seen: set<string>)
    requires certs != [] ==> (isDefaultMember <==> before == [])
    requires Progress(head, before, merged0, seen0)
    ensures Progress(head, before + certs, merged, seen)
  {
    merged, seen := merged0, seen0;
    assert before + certs[..0] == before;
    for j := 0 to |certs|
      invariant Progress(head, before + certs[..j], merged, seen)
    {
      assert before + certs[..j + 1] == before + certs[..j] + [certs[j]];
      merged, seen := AppendCert(certs[j], isDefaultMember && j == 0, head, before + certs[..j], merged, seen);
    }
    assert certs[..|certs|] == certs;
  }

  /** The body of that loop. */
  method AppendCert(cert: Cert, isDefault: bool, ghost head: seq<Cert>, ghost now: seq<Cert>, merged0: seq<Cert>, seen0: set<string>)
    returns (merged: seq<Cert>, seen: set<string>)
    requires Progress(head, now, merged0, seen0) && (isDefault <==> now == [])
    ensures Progress(head, now + [cert], merged, seen)
  {
    merged, seen := merged0, seen0;
    var certKey := cert.Key();
    ProgressStep(head, now, cert, merged, seen);
    if isDefault || certKey in seen {
      return;
    }
    seen := seen + {certKey};
    merged := merged + [cert];
  }

  lemma FirstIsDefault(cfgs: seq<PortConfig>, i: nat, d: nat)
    requires i < |cfgs| && d < |cfgs| && cfgs[i].tlsCerts != [] && cfgs[d].tlsCerts != []
    requires forall k :: 0 <= k < d ==> cfgs[k].tlsCerts == []
    ensures i == d <==> AllCerts(cfgs[..i]) == []
  {
    if i == d {
      NoCerts(cfgs[..i]);
    } else {
      FirstCert(cfgs[..i], d);
    }
  }

  lemma DedupSnoc(now: seq<Cert>, c: Cert)
    requires now != []
    ensures Dedup(Rest(now + [c])) == if c.Key() in KeysOf(Dedup(Rest(now))) then Dedup(Rest(now)) else Dedup(Rest(now)) + [c]
    ensures KeysOf(Dedup(Rest(now + [c]))) == KeysOf(Dedup(Rest(now))) + {c.Key()}
  {
    var rest := Rest(now + [c]);
    assert rest == Rest(now) + [c];
    assert rest[..|rest| - 1] == Rest(now);
    KeysOfConcat(Dedup(Rest(now)), [c]);
    KeysOfOne(c);
  }

  // ---------------------------------------------------------------- the merge

  function Finish(s: Settings, certs: seq<Cert>, defaultSSLPolicy: string): Merged {
    var (v4, v6) := if s.cidrs.Some? then s.cidrs.value else ({}, {});
    var prefixLists := if s.prefixLists.Some? then s.prefixLists.value else {};
    var open := v4 == {} && v6 == {} && prefixLists == {};
    var protocol := if s.protocol.Some? then s.protocol.value else "";
    Merged(
      protocol,
      if open then {"0.0.0.0/0"} else v4,
      if open then {"::/0"} else v6,
      prefixLists,
      if protocol == "HTTPS" && s.sslPolicy.None? then Some(defaultSSLPolicy) else s.sslPolicy,
      certs,
      s.mutualAuthentication)
  }

  /** r is the merge of the configs: the settings they agree on, with the defaults filled in. */
  ghost predicate IsMerge(cfgs: seq<PortConfig>, defaultSSLPolicy: string, r: Merged) {
    exists s :: SettingsAgreed(cfgs, s) && r == Finish(s, MergedCerts(AllCerts(cfgs)), defaultSSLPolicy)
  }

  /** The merge succeeds exactly when no two configs conflict. */
  method MergeListenPortConfigs(cfgs: seq<PortConfig>, defaultSSLPolicy: string) returns (r: Result<Merged, MergeError>)
    ensures r.Ok? <==> Compatible(cfgs)
    ensures r.Ok? ==> IsMerge(cfgs, defaultSSLPolicy, r.value)
  {
    var certs := MergeCerts(cfgs);
    var settings := MergeSettings(cfgs);
    if settings.Err? {
      return Err(settings.error);
    }
    r := Ok(Finish(settings.value, certs, defaultSSLPolicy));
  }

  lemma AgreedExists<T(!new)>(cfgs: seq<PortConfig>, setting: PortConfig -> Option<T>) returns (v: Option<T>)
    requires forall a, b :: a in cfgs && b in cfgs ==> setting(a).None? || setting(b).None? || setting(a) == setting(b)
    ensures Agreed(cfgs, setting, v)
  {
    v := None;
    if c :| c in cfgs && setting(c).Some? {
      v := setting(c);
    }
  }

  lemma SettingsExist(cfgs: seq<PortConfig>) returns (s: Settings)
    requires Compatible(cfgs)
    ensures SettingsAgreed(cfgs, s)
  {
    assert forall a, b :: a in cfgs && b in cfgs ==> !Conflict(a, b);
    var protocol := AgreedExists(cfgs, ProtocolOf);
    var cidrs := AgreedExists(cfgs, CIDRsOf);
    var prefixLists := AgreedExists(cfgs, PrefixListsOf);
    var sslPolicy := AgreedExists(cfgs, SSLPolicyOf);
    var mutualAuth := AgreedExists(cfgs, MutualAuthOf);
    s := Settings(protocol, cidrs, prefixLists, sslPolicy, mutualAuth);
  }

  /** There is a merge exactly when no two configs conflict. */
  lemma MergeExistsExactlyWhenCompatible(cfgs: seq<PortConfig>, defaultSSLPolicy: string)
    ensures (exists r :: IsMerge(cfgs, defaultSSLPolicy, r)) <==> Compatible(cfgs)
  {
    if Compatible(cfgs) {
      var s := SettingsExist(cfgs);
      assert IsMerge(cfgs, defaultSSLPolicy, Finish(s, MergedCerts(AllCerts(cfgs)), defaultSSLPolicy));
    }
    if r :| IsMerge(cfgs, defaultSSLPolicy, r) {
      var s :| SettingsAgreed(cfgs, s) && r == Finish(s, MergedCerts(AllCerts(cfgs)), defaultSSLPolicy);
      AgreedIsCompatible(cfgs, s);
    }
  }

  lemma MergesAgree(cfgs: seq<PortConfig>, others: seq<PortConfig>, defaultSSLPolicy: string, r: Merged, t: Merged)
    requires forall c :: c in cfgs <==> c in others
    requires IsMerge(cfgs, defaultSSLPolicy, r) && IsMerge(others, defaultSSLPolicy, t)
    ensures r.(tlsCerts := t.tlsCerts) == t && KeysOf(r.tlsCerts) == KeysOf(t.tlsCerts)
  {
    var s :| SettingsAgreed(cfgs, s) && r == Finish(s, MergedCerts(AllCerts(cfgs)), defaultSSLPolicy);
    var u :| SettingsAgreed(others, u) && t == Finish(u, MergedCerts(AllCerts(others)), defaultSSLPolicy);
    AgreedUnique(cfgs, others, ProtocolOf, s.protocol, u.protocol);
    AgreedUnique(cfgs, others, CIDRsOf, s.cidrs, u.cidrs);
    AgreedUnique(cfgs, others, PrefixListsOf, s.prefixLists, u.prefixLists);
    AgreedUnique(cfgs, others, SSLPolicyOf, s.sslPolicy, u.sslPolicy);
    AgreedUnique(cfgs, others, MutualAuthOf, s.mutualAuthentication, u.mutualAuthentication);
    SameCertKeys(cfgs, others);
  }

  lemma {:induction false} AllCertsElements(cfgs: seq<PortConfig>, x: Cert)
    ensures x in AllCerts(cfgs) <==> exists c :: c in cfgs && x in c.tlsCerts
  {
    if cfgs != [] {
      AllCertsElements(cfgs[..|cfgs| - 1], x);
      assert cfgs == cfgs[..|cfgs| - 1] + [cfgs[|cfgs| - 1]];
    }
  }

  lemma SameCertKeys(cfgs: seq<PortConfig>, others: seq<PortConfig>)
    requires forall c :: c in cfgs <==> c in others
    ensures KeysOf(MergedCerts(AllCerts(cfgs))) == KeysOf(MergedCerts(AllCerts(others)))
  {
    var all, rest := AllCerts(cfgs), AllCerts(others);
    forall x ensures x in all <==> x in rest {
      AllCertsElements(cfgs, x);
      AllCertsElements(others, x);
    }
    assert KeysOf(all) == KeysOf(rest);
    assert all == [] <==> rest == [] by {
      assert all != [] ==> all[0] in rest;
      assert rest != [] ==> rest[0] in all;
    }
    if all != [] {
      MergedCertsCorrect(all);
      MergedCertsCorrect(rest);
    }
  }

  lemma PermutationKeepsElements(cfgs: seq<PortConfig>, others: seq<PortConfig>)
    requires multiset(cfgs) == multiset(others)
    ensures forall c :: c in cfgs <==> c in others
  {
    forall c ensures c in cfgs <==> c in others {
      assert c in cfgs <==> c in multiset(cfgs);
      assert c in others <==> c in multiset(others);
    }
  }

  /** The order of the members matters to the order of the certificates only. For every permutation
      both merges succeed or both fail, and the results agree in everything but the certificates,
      which have the same keys. */
  lemma OrderIndependent(cfgs: seq<PortConfig>, others: seq<PortConfig>, defaultSSLPolicy: string)
    requires multiset(cfgs) == multiset(others)
    ensures Compatible(cfgs) <==> Compatible(others)
    ensures (exists r :: IsMerge(cfgs, defaultSSLPolicy, r)) <==> (exists t :: IsMerge(others, defaultSSLPolicy, t))
    ensures forall r, t :: IsMerge(cfgs, defaultSSLPolicy, r) && IsMerge(others, defaultSSLPolicy, t) ==>
              r.(tlsCerts := t.tlsCerts) == t && KeysOf(r.tlsCerts) == KeysOf(t.tlsCerts)
  {
    PermutationKeepsElements(cfgs, others);
    MergeExistsExactlyWhenCompatible(cfgs, defaultSSLPolicy);
    MergeExistsExactlyWhenCompatible(others, defaultSSLPolicy);
    forall r, t | IsMerge(cfgs, defaultSSLPolicy, r) && IsMerge(others, defaultSSLPolicy, t)
      ensures r.(tlsCerts := t.tlsCerts) == t && KeysOf(r.tlsCerts) == KeysOf(t.tlsCerts)
    {
      MergesAgree(cfgs, others, defaultSSLPolicy, r, t);
    }
  }

  // ---------------------------------------------------------------- the merge, field by field

  predicate GivesCIDRs(c: PortConfig) {
    c.inboundCIDRv4s != [] || c.inboundCIDRv6s != []
  }

  predicate SameElements(a: seq<string>, b: seq<string>) {
    (forall x :: x in a ==> x in b) && (forall x :: x in b ==> x in a)
  }

  /** Two configs conflict iff their protocols differ, or both give CIDRs, prefix lists, an SSL policy or
      a mutual authentication and these differ; the order of CIDRs and prefix lists does not matter. */
  lemma ConflictExactlyWhen(a: PortConfig, b: PortConfig)
    ensures Conflict(a, b) <==>
              || a.protocol != b.protocol
              || (GivesCIDRs(a) && GivesCIDRs(b)
                  && !(SameElements(a.inboundCIDRv4s, b.inboundCIDRv4s) && SameElements(a.inboundCIDRv6s, b.inboundCIDRv6s)))
              || (a.prefixLists != [] && b.prefixLists != [] && !SameElements(a.prefixLists, b.prefixLists))
              || (a.sslPolicy.Some? && b.sslPolicy.Some? && a.sslPolicy != b.sslPolicy)
              || (a.mutualAuthentication.Some? && b.mutualAuthentication.Some? && a.mutualAuthentication != b.mutualAuthentication)
  {
    SameSets(a.inboundCIDRv4s, b.inboundCIDRv4s);
    SameSets(a.inboundCIDRv6s, b.inboundCIDRv6s);
    SameSets(a.prefixLists, b.prefixLists);
  }

  lemma SameSets(a: seq<string>, b: seq<string>)
    ensures SetOf(a) == SetOf(b) <==> SameElements(a, b)
  {
    if SetOf(a) == SetOf(b) {
      forall x ensures x in a <==> x in b {
        assert x in SetOf(a) <==> x in SetOf(b);
      }
    }
  }

  /** A merge takes over what any config gives. */
  lemma MergeTakesOver(cfgs: seq<PortConfig>, defaultSSLPolicy: string, r: Merged, c: PortConfig)
    requires IsMerge(cfgs, defaultSSLPolicy, r) && c in cfgs
    ensures r.protocol == c.protocol
    ensures GivesCIDRs(c) ==> forall x :: (x in r.inboundCIDRv4s <==> x in c.inboundCIDRv4s) && (x in r.inboundCIDRv6s <==> x in c.inboundCIDRv6s)
    ensures c.prefixLists != [] ==> forall x :: x in r.prefixLists <==> x in c.prefixLists
    ensures c.sslPolicy.Some? ==> r.sslPolicy == c.sslPolicy
    ensures c.mutualAuthentication.Some? ==> r.mutualAuthentication == c.mutualAuthentication
  {
    var s :| SettingsAgreed(cfgs, s) && r == Finish(s, MergedCerts(AllCerts(cfgs)), defaultSSLPolicy);
    assert ProtocolOf(c) == s.protocol;
    assert CIDRsOf(c).Some? ==> CIDRsOf(c) == s.cidrs;
    assert PrefixListsOf(c).Some? ==> PrefixListsOf(c) == s.prefixLists;
    assert SSLPolicyOf(c).Some? ==> SSLPolicyOf(c) == s.sslPolicy;
    assert MutualAuthOf(c).Some? ==> MutualAuthOf(c) == s.mutualAuthentication;
    if GivesCIDRs(c) {
      NonEmptySet(c.inboundCIDRv4s);
      NonEmptySet(c.inboundCIDRv6s);
    }
    if c.prefixLists != [] {
      NonEmptySet(c.prefixLists);
    }
  }

  lemma NonEmptySet(a: seq<string>)
    ensures SetOf(a) == {} <==> a == []
  {
    if a != [] {
      assert a[0] in SetOf(a);
    }
  }

  /** What no config gives has its default: everything is open if there are neither CIDRs nor prefix
      lists, and HTTPS has the default SSL policy. */
  lemma MergeDefaults(cfgs: seq<PortConfig>, defaultSSLPolicy: string, r: Merged)
    requires IsMerge(cfgs, defaultSSLPolicy, r)
    ensures (forall c :: c in cfgs ==> c.prefixLists == []) ==> r.prefixLists == {}
    ensures (forall c :: c in cfgs ==> !GivesCIDRs(c)) ==>
              if forall c :: c in cfgs ==> c.prefixLists == [] then r.inboundCIDRv4s == {"0.0.0.0/0"} && r.inboundCIDRv6s == {"::/0"}
              else r.inboundCIDRv4s == {} && r.inboundCIDRv6s == {}
    ensures (forall c :: c in cfgs ==> c.sslPolicy == None) ==> r.sslPolicy == if r.protocol == "HTTPS" then Some(defaultSSLPolicy) else None
    ensures (forall c :: c in cfgs ==> c.mutualAuthentication == None) ==> r.mutualAuthentication == None
  {
    var s :| SettingsAgreed(cfgs, s) && r == Finish(s, MergedCerts(AllCerts(cfgs)), defaultSSLPolicy);
    if s.prefixLists.Some? {
      var c :| c in cfgs && PrefixListsOf(c) == s.prefixLists;
      NonEmptySet(c.prefixLists);
    }
    if c :| c in cfgs && c.prefixLists != [] {
      assert PrefixListsOf(c) == s.prefixLists;
      NonEmptySet(c.prefixLists);
    }
    assert s.cidrs.Some? ==> exists c :: c in cfgs && CIDRsOf(c) == s.cidrs;
    assert s.sslPolicy.Some? ==> exists c :: c in cfgs && SSLPolicyOf(c) == s.sslPolicy;
    assert s.mutualAuthentication.Some? ==> exists c :: c in cfgs && MutualAuthOf(c) == s.mutualAuthentication;
  }

  /** Every certificate of a member is in the merge, under its key, and nothing else is. */
  lemma MergeCertificates(cfgs: seq<PortConfig>, defaultSSLPolicy: string, r: Merged, key: string)
    requires IsMerge(cfgs, defaultSSLPolicy, r)
    ensures (exists x :: x in r.tlsCerts && x.Key() == key) <==> (exists c, x :: c in cfgs && x in c.tlsCerts && x.Key() == key)
  {
    var all := AllCerts(cfgs);
    if all != [] {
      MergedCertsCorrect(all);
    }
    assert key in KeysOf(r.tlsCerts) <==> key in KeysOf(all);
    forall x ensures x in all <==> exists c :: c in cfgs && x in c.tlsCerts {
      AllCertsElements(cfgs, x);
    }
    assert key in KeysOf(r.tlsCerts) <==> exists x :: x in r.tlsCerts && x.Key() == key;
    assert key in KeysOf(all) <==> exists x :: x in all && x.Key() == key;
  }

  predicate IsResource(c: Cert) {
    c.dependency.Some? && c.dependency.value.0 != "" && c.dependency.value.1 != ""
  }

  /** Certificates of resources are the same iff type and id are, as long as types contain no slash;
      other certificates are the same iff their ARNs are. */
  lemma SameCertExactlyWhen(a: Cert, b: Cert)
    requires IsResource(a) == IsResource(b)
    requires IsResource(a) && IsResource(b) ==> '/' !in a.dependency.value.0 && '/' !in b.dependency.value.0
    ensures a.Key() == b.Key() <==> if IsResource(a) then a.dependency == b.dependency else a.arn == b.arn
  {
    if IsResource(a) && a.Key() == b.Key() {
      var (s, x) := a.dependency.value;
      var (t, y) := b.dependency.value;
      assert (s + "/" + x)[|s|] == '/' && (t + "/" + y)[|t|] == '/';
      assert forall k :: 0 <= k < |s| ==> (s + "/" + x)[k] == s[k];
      assert forall k :: 0 <= k < |t| ==> (t + "/" + y)[k] == t[k];
      assert |s| == |t|;
      assert (s + "/" + x)[..|s|] == s && (t + "/" + y)[..|t|] == t;
      assert (s + "/" + x)[|s| + 1..] == x && (t + "/" + y)[|t| + 1..] == y;
    }
  }

  /** Each element of d is the first of its key in the list, and they come in the order of the list. */
  ghost predicate FirstOccurrences(certs: seq<Cert>, d: seq<Cert>, from: seq<nat>) {
    && |from| == |d|
    && (forall i :: 0 <= i < |from| ==> from[i] < |certs| && d[i] == certs[from[i]])
    && (forall i, j :: 0 <= i < j < |from| ==> from[i] < from[j])
    && (forall i, k :: 0 <= i < |from| && 0 <= k < from[i] ==> certs[k].Key() != d[i].Key())
  }

  lemma StillFirst(front: seq<Cert>, last: Cert, d: seq<Cert>, from: seq<nat>)
    requires FirstOccurrences(front, d, from)
    ensures FirstOccurrences(front + [last], d, from)
  {
    assert forall k :: 0 <= k < |front| ==> (front + [last])[k] == front[k];
  }

  lemma AlsoFirst(front: seq<Cert>, last: Cert, d: seq<Cert>, from: seq<nat>)
    requires FirstOccurrences(front, d, from) && last.Key() !in KeysOf(front)
    ensures FirstOccurrences(front + [last], d + [last], from + [|front|])
  {
    StillFirst(front, last, d, from);
    forall k | 0 <= k < |front| ensures (front + [last])[k].Key() != last.Key() {
      assert front[k].Key() in KeysOf(front);
    }
  }

  /** The other certificates keep their order: each is the first with its key, and they come in the order
      in which they were given. */
  lemma {:induction false} DedupKeepsOrder(certs: seq<Cert>) returns (from: seq<nat>)
    ensures FirstOccurrences(certs, Dedup(certs), from)
  {
    if certs == [] {
      from := [];
    } else {
      var front, last := certs[..|certs| - 1], certs[|certs| - 1];
      from := DedupKeepsOrder(front);
      assert certs == front + [last];
      DedupKeys(front);
      if last.Key() in KeysOf(front) {
        StillFirst(front, last, Dedup(front), from);
      } else {
        AlsoFirst(front, last, Dedup(front), from);
        from := from + [|front|];
      }
    }
  }
}
