/** Which Global Accelerators refer to which endpoint resources: two maps, updated in place, that
    must stay inverse to each other. */
module ReferenceTracker {
  import opened Names
  import Text

  datatype ResourceKey = ResourceKey(kind: EndpointType, name: NamespacedName)

  datatype EndpointReference = EndpointReference(kind: EndpointType, name: string, namespace: string, endpointId: string)
  {
    function ToResourceKey(): ResourceKey {
      if kind.EndpointID? then ResourceKey(kind, NamespacedName("", endpointId))
      else ResourceKey(kind, NamespacedName(namespace, name))
    }
  }

  /** References to objects have the same key iff type, namespace and name agree, and the key renders
      as namespace and name; references to endpoint ids iff the ids agree. */
  lemma SameResourceExactlyWhen(a: EndpointReference, b: EndpointReference)
    requires '/' !in a.namespace && '/' !in b.namespace
    ensures a.ToResourceKey() == b.ToResourceKey() <==>
              a.kind == b.kind && if a.kind.EndpointID? then a.endpointId == b.endpointId else a.namespace == b.namespace && a.name == b.name
    ensures !a.kind.EndpointID? ==> a.ToResourceKey().name.String() == a.namespace + "/" + a.name
  {
  }

  type References = map<NamespacedName, set<ResourceKey>>

  function Keys(endpoints: seq<EndpointReference>): set<ResourceKey> {
    set e | e in endpoints :: e.ToResourceKey()
  }

  function Holders(m: map<ResourceKey, set<string>>, r: ResourceKey): set<string> {
    if r in m then m[r] else {}
  }

  ghost function Referrers(refs: References, r: ResourceKey): set<string> {
    set ga | ga in refs && r in refs[ga] :: ga.String()
  }

  // ---------------------------------------------------------------- over any sequence of calls

  datatype Call = Update(ga: NamespacedName, keys: set<ResourceKey>) | Remove(ga: NamespacedName)

  function After(calls: seq<Call>): References {
    if calls == [] then map[]
    else
      var before, last := After(calls[..|calls| - 1]), calls[|calls| - 1];
      if last.Update? then before[last.ga := last.keys] else before - {last.ga}
  }

  lemma AfterOneMore(calls: seq<Call>, call: Call)
    ensures After(calls + [call]) == if call.Update? then After(calls)[call.ga := call.keys] else After(calls) - {call.ga}
  {
    assert (calls + [call])[..|calls|] == calls;
  }

  /** The last call that names the accelerator is at index k. */
  predicate LastNaming(calls: seq<Call>, k: nat, ga: NamespacedName) {
    k < |calls| && calls[k].ga == ga && forall j :: k < j < |calls| ==> calls[j].ga != ga
  }

  /** The last call that names the accelerator is an update listing the resource. */
  ghost predicate LastLists(calls: seq<Call>, ga: NamespacedName, r: ResourceKey) {
    exists k: nat :: LastNaming(calls, k, ga) && calls[k].Update? && r in calls[k].keys
  }

  lemma LastNamingOfLonger(calls: seq<Call>, k: nat, ga: NamespacedName)
    requires calls != []
    ensures var n := |calls| - 1;
            LastNaming(calls, k, ga) <==> if calls[n].ga == ga then k == n else k < n && LastNaming(calls[..n], k, ga)
  {
    var n := |calls| - 1;
    assert forall j :: 0 <= j < n ==> calls[..n][j] == calls[j];
  }

  /** What is recorded of an accelerator is what the last call that names it says. */
  lemma {:induction false} LastCallGives(calls: seq<Call>, ga: NamespacedName)
    ensures forall k: nat :: LastNaming(calls, k, ga) ==>
              if calls[k].Update? then ga in After(calls) && After(calls)[ga] == calls[k].keys else ga !in After(calls)
    ensures ga in After(calls) ==> exists k: nat :: LastNaming(calls, k, ga)
  {
    if calls != [] {
      var n := |calls| - 1;
      LastCallGives(calls[..n], ga);
      forall k: nat ensures LastNaming(calls, k, ga) <==> if calls[n].ga == ga then k == n else k < n && LastNaming(calls[..n], k, ga) {
        LastNamingOfLonger(calls, k, ga);
      }
      if calls[n].ga == ga {
        assert LastNaming(calls, n, ga);
      } else if ga in After(calls) {
        var k: nat :| LastNaming(calls[..n], k, ga);
        assert LastNaming(calls, k, ga);
      }
    }
  }

  /** After any calls, an accelerator is recorded as referring to a resource iff the last call
      that named the accelerator was an update listing the resource. */
  lemma {:induction false} LastCallDecides(calls: seq<Call>, ga: NamespacedName, r: ResourceKey)
    ensures (ga in After(calls) && r in After(calls)[ga]) <==> LastLists(calls, ga, r)
  {
    LastCallGives(calls, ga);
  }

  lemma KeysEmptyExactlyWhen(endpoints: seq<EndpointReference>)
    ensures Keys(endpoints) == {} <==> endpoints == []
  {
    if endpoints != [] {
      assert endpoints[0].ToResourceKey() in Keys(endpoints);
    }
  }

  /** An accelerator keeps an entry without resources iff the last call that names it is an update
      without endpoints. */
  lemma {:induction false} EmptyEntryExactlyWhen(calls: seq<Call>, ga: NamespacedName)
    ensures (ga in After(calls) && After(calls)[ga] == {}) <==>
              exists k: nat :: LastNaming(calls, k, ga) && calls[k].Update? && calls[k].keys == {}
  {
    LastCallGives(calls, ga);
  }

  /** One update without endpoints leaves an empty entry. */
  lemma UpdateWithoutEndpoints(ga: NamespacedName)
    ensures After([Update(ga, Keys([]))]) == map[ga := {}]
  {
    KeysEmptyExactlyWhen([]);
    AfterOneMore([], Update(ga, Keys([])));
    assert [] + [Update(ga, Keys([]))] == [Update(ga, Keys([]))];
  }

  // ---------------------------------------------------------------- the tracker

  class Tracker {
    var resourceMap: map<ResourceKey, set<string>>
    var gaRefMap: References
    ghost var calls: seq<Call>  // the updates and removals so far

    /** The maps are inverse relations, no resource has an empty entry, names are slash-free. */
    ghost predicate Inverse()
      reads this
    {
      && (forall r :: Holders(resourceMap, r) == Referrers(gaRefMap, r))
      && (forall r :: r in resourceMap ==> resourceMap[r] != {})
      && (forall ga :: ga in gaRefMap ==> ga.SlashFree())
    }

    /** What is recorded is decided by the calls so far. */
    ghost predicate Valid()
      reads this
    {
      Inverse() && gaRefMap == After(calls)
    }

    constructor ()
      ensures Valid() && calls == []
    {
      resourceMap, gaRefMap, calls := map[], map[], [];
    }

    method UpdateDesiredEndpointReferencesForGA(ga: NamespacedName, desiredEndpoints: seq<EndpointReference>)
      requires Valid() && ga.SlashFree()
      modifies this
      ensures Valid() && calls == old(calls) + [Update(ga, Keys(desiredEndpoints))]
      ensures gaRefMap == old(gaRefMap)[ga := Keys(desiredEndpoints)]
      ensures gaRefMap[ga] == {} <==> desiredEndpoints == []
    {
      Replace(ga, desiredEndpoints);
      KeysEmptyExactlyWhen(desiredEndpoints);
      AfterOneMore(calls, Update(ga, Keys(desiredEndpoints)));
      calls := calls + [Update(ga, Keys(desiredEndpoints))];
    }

    /** The body of an update. */
    method Replace(ga: NamespacedName, desiredEndpoints: seq<EndpointReference>)
      requires Inverse() && ga.SlashFree()
      modifies this`resourceMap, this`gaRefMap
      ensures Inverse() && gaRefMap == old(gaRefMap)[ga := Keys(desiredEndpoints)]
    {
      var id := ga.String();
      var currentResources := AddReferences(id, desiredEndpoints);
      var stale := (if ga in gaRefMap then gaRefMap[ga] else {}) - currentResources;
      RemoveReferences(id, stale);
      gaRefMap := gaRefMap[ga := currentResources];
      ReferrersAfterUpdate(old(gaRefMap), ga, currentResources);
    }

    /** The first loop of an update: the accelerator is entered for every desired endpoint. */
    method AddReferences(id: string, desiredEndpoints: seq<EndpointReference>) returns (currentResources: set<ResourceKey>)
      requires forall r :: r in resourceMap ==> resourceMap[r] != {}
      modifies this`resourceMap
      ensures currentResources == Keys(desiredEndpoints)
      ensures forall r :: Holders(resourceMap, r) == Holders(old(resourceMap), r) + if r in currentResources then {id} else {}
      ensures forall r :: r in resourceMap ==> resourceMap[r] != {}
    {
      currentResources := {};
      for i := 0 to |desiredEndpoints|
        invariant currentResources == Keys(desiredEndpoints[..i])
        invariant forall r :: Holders(resourceMap, r) == Holders(old(resourceMap), r) + if r in currentResources then {id} else {}
        invariant forall r :: r in resourceMap ==> resourceMap[r] != {}
      {
        var key := desiredEndpoints[i].ToResourceKey();
        assert desiredEndpoints[..i + 1] == desiredEndpoints[..i] + [desiredEndpoints[i]];
        currentResources := currentResources + {key};
        resourceMap := resourceMap[key := Holders(resourceMap, key) + {id}];
      }
      assert desiredEndpoints[..|desiredEndpoints|] == desiredEndpoints;
    }

    /** The removal loop both methods share: drops the accelerator from the given resources, and a
        resource with its last accelerator. */
    method RemoveReferences(id: string, resources: set<ResourceKey>)
      requires forall r :: r in resourceMap ==> resourceMap[r] != {}
      modifies this`resourceMap
      ensures forall r :: Holders(resourceMap, r) == Holders(old(resourceMap), r) - if r in resources then {id} else {}
      ensures forall r :: r in resourceMap ==> resourceMap[r] != {}
    {
      var remaining := resources;
      while remaining != {}
        invariant remaining <= resources
        invariant forall r :: r in resources - remaining ==> Holders(resourceMap, r) == Holders(old(resourceMap), r) - {id}
        invariant forall r :: r !in resources - remaining ==> Holders(resourceMap, r) == Holders(old(resourceMap), r)
        invariant forall r :: r in resourceMap ==> resourceMap[r] != {}
      {
        var key :| key in remaining;
        remaining := remaining - {key};
        RemoveReference(id, key);
      }
    }

    /** The body of that loop. */
    method RemoveReference(id: string, key: ResourceKey)
      requires forall r :: r in resourceMap ==> resourceMap[r] != {}
      modifies this`resourceMap
      ensures Holders(resourceMap, key) == Holders(old(resourceMap), key) - {id}
      ensures forall r :: r != key ==> Holders(resourceMap, r) == Holders(old(resourceMap), r)
      ensures forall r :: r in resourceMap ==> resourceMap[r] != {}
    {
      if key in resourceMap {
        var gaSet := resourceMap[key] - {id};
        if |gaSet| == 0 {
          resourceMap := resourceMap - {key};
        } else {
          resourceMap := resourceMap[key := gaSet];
        }
      }
    }

    method RemoveGA(ga: NamespacedName)
      requires Valid() && ga.SlashFree()
      modifies this
      ensures Valid() && calls == old(calls) + [Remove(ga)] && gaRefMap == old(gaRefMap) - {ga}
    {
      if ga in gaRefMap {
        RemoveReferences(ga.String(), gaRefMap[ga]);
        gaRefMap := gaRefMap - {ga};
        ReferrersAfterRemoval(old(gaRefMap), ga);
      }
      AfterOneMore(calls, Remove(ga));
      calls := calls + [Remove(ga)];
    }

    method IsResourceReferenced(r: ResourceKey) returns (referenced: bool)
      requires Valid()
      ensures referenced <==> exists ga :: LastLists(calls, ga, r)
    {
      forall ga ensures (ga in gaRefMap && r in gaRefMap[ga]) <==> LastLists(calls, ga, r) {
        LastCallDecides(calls, ga, r);
      }
      referenced := r in resourceMap && |resourceMap[r]| > 0;
      assert Holders(resourceMap, r) == Referrers(gaRefMap, r);
      if ga :| ga in gaRefMap && r in gaRefMap[ga] {
        assert ga.String() in Referrers(gaRefMap, r);
      }
    }

    /** Exactly the accelerators whose last call listed the resource, each once. */
    method GetGAsForResource(r: ResourceKey) returns (result: seq<NamespacedName>)
      requires Valid()
      ensures forall ga :: ga in result <==> LastLists(calls, ga, r)
      ensures forall i, j :: 0 <= i < j < |result| ==> result[i] != result[j]
    {
      result := [];
      var remaining := Holders(resourceMap, r);
      assert remaining == Referrers(gaRefMap, r);
      while remaining != {}
        invariant remaining <= Referrers(gaRefMap, r)
        invariant forall ga :: ga in result <==> ga in gaRefMap && r in gaRefMap[ga] && ga.String() !in remaining
        invariant forall i, j :: 0 <= i < j < |result| ==> result[i] != result[j]
      {
        var gaStr :| gaStr in remaining;
        ghost var origin :| origin in gaRefMap && r in gaRefMap[origin] && origin.String() == gaStr;
        var parts := Text.Split(gaStr, '/');
        RenderingSplits(origin);
        if |parts| == 2 {
          result := result + [NamespacedName(parts[0], parts[1])];
        }
        forall ga | ga in gaRefMap && ga.String() == gaStr ensures ga == origin {
          RenderingInjective(ga, origin);
        }
        remaining := remaining - {gaStr};
      }
      forall ga ensures (ga in gaRefMap && r in gaRefMap[ga]) <==> LastLists(calls, ga, r) {
        LastCallDecides(calls, ga, r);
      }
    }
  }

  lemma ReferrersAfterUpdate(refs: References, ga: NamespacedName, keys: set<ResourceKey>)
    requires ga.SlashFree() && forall g :: g in refs ==> g.SlashFree()
    ensures forall r :: Referrers(refs[ga := keys], r) ==
              Referrers(refs, r) + (if r in keys then {ga.String()} else {})
              - if ga in refs && r in refs[ga] && r !in keys then {ga.String()} else {}
  {
    forall g | g in refs && g.String() == ga.String() ensures g == ga {
      RenderingInjective(g, ga);
    }
    forall r ensures Referrers(refs[ga := keys], r) ==
              Referrers(refs, r) + (if r in keys then {ga.String()} else {})
              - if ga in refs && r in refs[ga] && r !in keys then {ga.String()} else {}
    {
      var after := refs[ga := keys];
      forall s ensures s in Referrers(after, r) <==>
          (s in Referrers(refs, r) || (s == ga.String() && r in keys)) && !(s == ga.String() && ga in refs && r in refs[ga] && r !in keys)
      {
        if g :| g in refs && r in refs[g] && g.String() == s && g != ga {
          assert g in after && r in after[g];
        }
        if r in keys {
          assert ga in after && r in after[ga];
        }
      }
    }
  }

  lemma ReferrersAfterRemoval(refs: References, ga: NamespacedName)
    requires ga in refs && forall g :: g in refs ==> g.SlashFree()
    ensures forall r :: Referrers(refs - {ga}, r) == Referrers(refs, r) - if r in refs[ga] then {ga.String()} else {}
  {
    forall g | g in refs && g.String() == ga.String() ensures g == ga {
      RenderingInjective(g, ga);
    }
    forall r, s ensures s in Referrers(refs - {ga}, r) <==> s in Referrers(refs, r) && !(r in refs[ga] && s == ga.String()) {
      if g :| g in refs && r in refs[g] && g.String() == s && g != ga {
        assert g in refs - {ga} && r in (refs - {ga})[g];
      }
    }
  }
}
