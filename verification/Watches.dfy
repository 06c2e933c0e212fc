/** Reference-counted watches: a resource is watched exactly while it has a consumer. The
    endpoint resources manager keeps one table of watchers per resource type, the secrets manager
    keeps one table. */
module Watches {
  import opened Names

  /** A running watch. Closing its stop channel twice would panic, so Stop demands an open one. */
  class Watcher {
    const resource: NamespacedName
    var consumers: set<string>
    var stopped: bool

    constructor (resource: NamespacedName)
      ensures this.resource == resource && consumers == {} && !stopped
    {
      this.resource := resource;
      consumers, stopped := {}, false;
    }

    method Stop()
      requires !stopped
      modifies this`stopped
      ensures stopped
    {
      stopped := true;
    }

    method AddConsumer(id: string)
      modifies this`consumers
      ensures consumers == old(consumers) + {id}
    {
      consumers := consumers + {id};
    }

    method RemoveConsumer(id: string)
      modifies this`consumers
      ensures consumers == old(consumers) - {id}
    {
      consumers := consumers - {id};
    }
  }

  /** Watched resources and their consumers. */
  type View = map<NamespacedName, set<string>>

  function Consumers(view: View, r: NamespacedName): set<string> {
    if r in view then view[r] else {}
  }

  predicate NoneUnused(view: View) {
    forall r :: r in view ==> view[r] != {}
  }

  /** The resources whose rendered name is not in the set. */
  function Unnamed(resources: set<NamespacedName>, refs: set<string>): set<NamespacedName> {
    set r | r in resources && r.String() !in refs
  }

  function UnusedAmong(view: View, resources: set<NamespacedName>): set<NamespacedName> {
    set r | r in resources && Consumers(view, r) == {}
  }

  /** The consumer has left the given resources, and nothing else has changed. */
  ghost predicate Removed(before: View, after: View, left: set<NamespacedName>, id: string) {
    forall r :: Consumers(after, r) == if r in left then Consumers(before, r) - {id} else Consumers(before, r)
  }

  lemma RemovedOneMore(start: View, before: View, after: View, leaving: set<NamespacedName>, remaining: set<NamespacedName>, ref: NamespacedName, id: string)
    requires Removed(start, before, leaving - remaining, id) && ref in remaining
    requires if ref in leaving then Removed(before, after, {ref}, id) else after == before
    ensures Removed(start, after, leaving - (remaining - {ref}), id)
    ensures UnusedAmong(after, leaving - (remaining - {ref})) ==
              UnusedAmong(before, leaving - remaining) + if ref in leaving && Consumers(after, ref) == {} then {ref} else {}
  {
    var done, now := leaving - remaining, leaving - (remaining - {ref});
    assert now == if ref in leaving then done + {ref} else done;
    if ref !in leaving {
      assert UnusedAmong(after, now) == UnusedAmong(before, done);
    }
  }

  lemma NothingUnusedLeft(start: View, released: View, inputs: set<string>, id: string)
    requires released.Keys == start.Keys && Removed(start, released, Unnamed(start.Keys, inputs), id)
    requires forall r :: r in start && r.String() in inputs ==> start[r] != {}
    ensures var after := released - UnusedAmong(released, Unnamed(start.Keys, inputs));
            NoneUnused(after) && Removed(start, after, Unnamed(start.Keys, inputs), id)
  {
    var leaving := Unnamed(start.Keys, inputs);
    var after := released - UnusedAmong(released, leaving);
    forall r | r in after ensures after[r] != {} {
      assert Consumers(released, r) == if r in leaving then Consumers(start, r) - {id} else Consumers(start, r);
    }
    forall r ensures Consumers(after, r) == Consumers(released, r) {}
  }

  /** The consumers after a monitor call: the caller consumes exactly the named resources. */
  function Monitored(view: View, id: string, named: set<NamespacedName>, r: NamespacedName): set<string> {
    if r in named then Consumers(view, r) + {id} else Consumers(view, r) - {id}
  }

  /** What one monitor call makes of the watched resources; removing a consumer names nothing. */
  function AfterMonitor(view: View, id: string, named: set<NamespacedName>): View {
    map r | r in view.Keys + named && Monitored(view, id, named, r) != {} :: Monitored(view, id, named, r)
  }

  function SetOf(refs: seq<NamespacedName>): set<NamespacedName> {
    set r | r in refs
  }

  function Rendered(named: set<NamespacedName>): set<string> {
    set r | r in named :: r.String()
  }

  /** The consumer has joined the named resources, and nothing else has changed. */
  ghost predicate Joined(before: View, after: View, named: set<NamespacedName>, id: string) {
    && after.Keys == before.Keys + named
    && forall r :: Consumers(after, r) == if r in named then Consumers(before, r) + {id} else Consumers(before, r)
  }

  lemma JoinThenLeave(start: View, joined: View, after: View, named: set<NamespacedName>, id: string)
    requires NoneUnused(start) && NoneUnused(after) && Joined(start, joined, named, id)
    requires Removed(joined, after, Unnamed(joined.Keys, Rendered(named)), id)
    requires forall r :: r in joined.Keys + named ==> r.InNamespace()
    ensures after == AfterMonitor(start, id, named)
  {
    forall r ensures Consumers(after, r) == Monitored(start, id, named, r) {
      if r in joined.Keys && r.String() in Rendered(named) {
        var s :| s in named && s.String() == r.String();
        RenderingsDiffer(r, s);
      }
      assert r in named ==> r.String() in Rendered(named);
    }
    var expected := AfterMonitor(start, id, named);
    forall r ensures r in after <==> r in expected {
      assert Consumers(after, r) == Monitored(start, id, named, r);
    }
    forall r | r in after ensures after[r] == expected[r] {
      assert Consumers(after, r) == Monitored(start, id, named, r);
    }
  }

  lemma DroppedOneMore(view: View, refs: set<NamespacedName>, remaining: set<NamespacedName>, ref: NamespacedName)
    requires ref in remaining && remaining <= refs
    ensures view - (refs - remaining) - {ref} == view - (refs - (remaining - {ref}))
  {
  }

  // ---------------------------------------------------------------- over any sequence of calls

  datatype Call = Call(id: string, named: set<NamespacedName>)

  function After(calls: seq<Call>): View {
    if calls == [] then map[]
    else AfterMonitor(After(calls[..|calls| - 1]), calls[|calls| - 1].id, calls[|calls| - 1].named)
  }

  lemma AfterOneMore(calls: seq<Call>, call: Call)
    ensures After(calls + [call]) == AfterMonitor(After(calls), call.id, call.named)
  {
    assert (calls + [call])[..|calls|] == calls;
  }

  /** The latest call of the consumer names the resource. */
  ghost predicate LatestNames(calls: seq<Call>, id: string, r: NamespacedName) {
    exists k :: 0 <= k < |calls| && calls[k].id == id && r in calls[k].named
                && forall j :: k < j < |calls| ==> calls[j].id != id
  }

  lemma LatestOfLonger(calls: seq<Call>, id: string, r: NamespacedName)
    requires calls != []
    ensures var last := calls[|calls| - 1];
            LatestNames(calls, id, r) <==> if last.id == id then r in last.named else LatestNames(calls[..|calls| - 1], id, r)
  {
    var n := |calls| - 1;
    if calls[n].id != id {
      if LatestNames(calls[..n], id, r) {
        var k :| 0 <= k < n && calls[..n][k].id == id && r in calls[..n][k].named && forall j :: k < j < n ==> calls[..n][j].id != id;
        assert calls[k].id == id && forall j :: k < j < |calls| ==> calls[j].id != id;
      }
      if LatestNames(calls, id, r) {
        var k :| 0 <= k < |calls| && calls[k].id == id && r in calls[k].named && forall j :: k < j < |calls| ==> calls[j].id != id;
        assert calls[..n][k].id == id && forall j :: k < j < n ==> calls[..n][j].id != id;
      }
    }
  }

  /** After any calls, the consumers of a resource are exactly those whose latest call names it,
      and the resource is watched iff there is one. */
  lemma {:induction false} LatestCallDecides(calls: seq<Call>, r: NamespacedName)
    ensures forall id :: id in Consumers(After(calls), r) <==> LatestNames(calls, id, r)
    ensures r in After(calls) <==> exists id :: LatestNames(calls, id, r)
  {
    if calls != [] {
      var n := |calls| - 1;
      LatestCallDecides(calls[..n], r);
      var before := After(calls[..n]);
      assert Consumers(After(calls), r) == Monitored(before, calls[n].id, calls[n].named, r);
      forall id ensures id in Consumers(After(calls), r) <==> LatestNames(calls, id, r) {
        LatestOfLonger(calls, id, r);
      }
      if r in After(calls) {
        var id :| id in After(calls)[r];
        assert LatestNames(calls, id, r);
      }
    }
  }

  // ---------------------------------------------------------------- the table

  class WatchTable {
    var watches: map<NamespacedName, Watcher>
    ghost var all: set<Watcher>  // every watcher this table ever started
    ghost var view: View         // the watched resources with their consumers
    ghost var calls: seq<Call>   // the monitor calls so far

    /** The table is linked: entries are distinct watchers, and a watcher ever started is stopped
        exactly when it is no longer in the table. */
    ghost predicate Linked()
      reads this, all
    {
      && view.Keys == watches.Keys
      && (forall r :: r in watches ==> watches[r] in all && !watches[r].stopped)
      && (forall r :: r in watches ==> watches[r].resource == r && r.InNamespace() && view[r] == watches[r].consumers)
      && (forall w :: w in all && !w.stopped ==> w.resource in watches && watches[w.resource] == w)
    }

    /** A resource is watched iff it has a consumer. */
    ghost predicate Tidy()
      reads this, all
    {
      Linked() && NoneUnused(view)
    }

    /** Between calls, what is watched and for whom is decided by the calls so far. */
    ghost predicate Valid()
      reads this, all
    {
      Tidy() && view == After(calls)
    }

    constructor ()
      ensures Valid() && all == {} && calls == []
    {
      watches, all, view, calls := map[], {}, map[], [];
    }

    method Start(ref: NamespacedName)
      requires Linked() && ref.InNamespace() && ref !in watches
      modifies this`watches, this`all, this`view
      ensures Linked() && fresh(all - old(all)) && old(all) <= all
      ensures view == old(view)[ref := {}]
    {
      var w := new Watcher(ref);
      watches, all, view := watches[ref := w], all + {w}, view[ref := {}];
      assert forall r :: r in old(watches) ==> watches[r] == old(watches[r]) && watches[r] != w;
    }

    method Register(ref: NamespacedName, id: string)
      requires Linked() && ref in watches
      modifies watches[ref], this`view
      ensures Linked() && view == old(view)[ref := old(view)[ref] + {id}]
    {
      watches[ref].AddConsumer(id);
      view := view[ref := view[ref] + {id}];
    }

    /** Takes the consumer off one watched resource and says whether it has others. */
    method Release(ref: NamespacedName, id: string) returns (used: bool)
      requires Linked() && ref in watches
      modifies watches[ref], this`view
      ensures Linked() && Removed(old(view), view, {ref}, id)
      ensures used <==> Consumers(view, ref) != {}
    {
      watches[ref].RemoveConsumer(id);
      view := view[ref := view[ref] - {id}];
      used := watches[ref].consumers != {};
    }

    /** Starts a watch if there is none and registers the consumer. */
    method Watch(ref: NamespacedName, id: string)
      requires Linked() && ref.InNamespace()
      modifies this`watches, this`all, this`view, all
      ensures Linked() && fresh(all - old(all)) && old(all) <= all
      ensures view == old(view)[ref := Consumers(old(view), ref) + {id}]
    {
      if ref !in watches {
        Start(ref);
      }
      assert ref in view;
      Register(ref, id);
    }

    /** Stops the watch of a resource and drops it from the table. */
    method Drop(ref: NamespacedName)
      requires Linked() && ref in watches
      modifies this`watches, this`view, watches[ref]
      ensures Linked() && all == old(all) && view == old(view) - {ref}
    {
      watches[ref].Stop();
      watches, view := watches - {ref}, view - {ref};
    }

    /** One pass over the table, deleting while iterating: the consumer leaves every resource
        outside `currentRefs`, and a resource without consumers is no longer watched. */
    method Cleanup(currentRefs: set<string>, id: string)
      requires Tidy()
      modifies this`watches, this`all, this`view, all
      ensures Tidy() && all == old(all)
      ensures Removed(old(view), view, Unnamed(old(view).Keys, currentRefs), id)
    {
      var remaining := watches.Keys;
      ghost var leaving := Unnamed(view.Keys, currentRefs);
      while remaining != {}
        invariant Tidy() && all == old(all) && remaining <= view.Keys
        invariant Removed(old(view), view, leaving - remaining, id)
      {
        var ref :| ref in remaining;
        ghost var before := view;
        if ref.String() !in currentRefs {
          Leave(ref, id);
        }
        RemovedOneMore(old(view), before, view, leaving, remaining, ref, id);
        remaining := remaining - {ref};
      }
      assert leaving - {} == leaving;
    }

    /** The body of that pass. */
    method Leave(ref: NamespacedName, id: string)
      requires Tidy() && ref in view
      modifies this`watches, this`all, this`view, all
      ensures Tidy() && all == old(all) && old(view).Keys - {ref} <= view.Keys
      ensures Removed(old(view), view, {ref}, id)
    {
      if id in watches[ref].consumers {
        var used := Release(ref, id);
        if !used {
          Drop(ref);
        }
      }
    }

    /** The two-phase variant: the consumer leaves the resources outside `inputs`, and resources
        left without consumers are collected; then the collected watches are stopped. */
    method CollectUnused(inputs: set<string>, id: string)
      requires Linked() && forall r :: r in view && r.String() in inputs ==> view[r] != {}
      modifies this`watches, this`all, this`view, all
      ensures Tidy() && all == old(all)
      ensures Removed(old(view), view, Unnamed(old(view).Keys, inputs), id)
    {
      var unused := ReleaseAll(inputs, id);
      assert unused <= view.Keys by {
        assert view.Keys == watches.Keys == old(watches).Keys == old(view).Keys;
      }
      ghost var released := view;
      DropAll(unused);
      NothingUnusedLeft(old(view), released, inputs, id);
    }

    method ReleaseAll(inputs: set<string>, id: string) returns (unused: set<NamespacedName>)
      requires Linked()
      modifies this`view, all
      ensures Linked()
      ensures Removed(old(view), view, Unnamed(old(view).Keys, inputs), id)
      ensures unused == UnusedAmong(view, Unnamed(old(view).Keys, inputs))
    {
      unused := {};
      var remaining := watches.Keys;
      ghost var leaving := Unnamed(view.Keys, inputs);
      assert leaving - remaining == {};
      while remaining != {}
        invariant Linked() && remaining <= watches.Keys
        invariant Removed(old(view), view, leaving - remaining, id)
        invariant unused == UnusedAmong(view, leaving - remaining)
      {
        var ref :| ref in remaining;
        ghost var before := view;
        var collected := ReleaseUnlessNamed(ref, inputs, id);
        RemovedOneMore(old(view), before, view, leaving, remaining, ref, id);
        unused, remaining := unused + collected, remaining - {ref};
      }
      assert leaving - {} == leaving;
    }

    /** The body of the first phase. */
    method ReleaseUnlessNamed(ref: NamespacedName, inputs: set<string>, id: string) returns (collected: set<NamespacedName>)
      requires Linked() && ref in watches
      modifies watches[ref], this`view
      ensures Linked()
      ensures if ref.String() in inputs then view == old(view) else Removed(old(view), view, {ref}, id)
      ensures collected == if ref.String() !in inputs && Consumers(view, ref) == {} then {ref} else {}
    {
      collected := {};
      if ref.String() !in inputs {
        var used := Release(ref, id);
        if !used {
          collected := {ref};
        }
      }
    }

    method DropAll(refs: set<NamespacedName>)
      requires Linked() && refs <= view.Keys
      modifies this`watches, this`all, this`view, all
      ensures Linked() && all == old(all) && view == old(view) - refs
    {
      var remaining := refs;
      while remaining != {}
        invariant Linked() && all == old(all) && remaining <= refs
        invariant view == old(view) - (refs - remaining)
      {
        var ref :| ref in remaining;
        assert ref in view;
        Drop(ref);
        DroppedOneMore(old(view), refs, remaining, ref);
        remaining := remaining - {ref};
      }
      assert refs - {} == refs;
    }

    /** Registers the consumer with every named resource. */
    method WatchAll(refs: seq<NamespacedName>, id: string)
      requires Linked() && forall r :: r in refs ==> r.InNamespace()
      modifies this`watches, this`all, this`view, all
      ensures Linked() && fresh(all - old(all)) && old(all) <= all
      ensures Joined(old(view), view, SetOf(refs), id)
    {
      for i := 0 to |refs|
        invariant Linked() && fresh(all - old(all)) && old(all) <= all
        invariant Joined(old(view), view, SetOf(refs[..i]), id)
      {
        ghost var before := view;
        Watch(refs[i], id);
        JoinedOneMore(old(view), before, view, refs, i, id);
      }
      assert refs[..|refs|] == refs;
    }

    /** A monitor call of the endpoint resources manager, for the resources of this table. */
    method Monitor(refs: seq<NamespacedName>, id: string)
      requires Valid() && forall r :: r in refs ==> r.InNamespace()
      modifies this, all
      ensures Valid() && fresh(all - old(all)) && old(all) <= all
      ensures calls == old(calls) + [Call(id, SetOf(refs))]
    {
      WatchAll(refs, id);
      ghost var named, joined := SetOf(refs), view;
      JoinedNoneUnused(old(view), view, named, id);
      Cleanup(Rendered(SetOf(refs)), id);
      JoinThenLeave(old(view), joined, view, named, id);
      AfterOneMore(calls, Call(id, SetOf(refs)));
      calls := calls + [Call(id, SetOf(refs))];
    }

    /** A consumer is deleted. */
    method RemoveConsumer(id: string)
      requires Valid()
      modifies this, all
      ensures Valid() && all == old(all) && calls == old(calls) + [Call(id, {})]
    {
      Cleanup({}, id);
      JoinThenLeave(old(view), old(view), view, {}, id);
      AfterOneMore(calls, Call(id, {}));
      calls := calls + [Call(id, {})];
    }

    /** MonitorSecrets of the secrets manager, with its two-phase garbage collection. */
    method MonitorSecrets(id: string, secrets: seq<NamespacedName>)
      requires Valid() && forall r :: r in secrets ==> r.InNamespace()
      modifies this, all
      ensures Valid() && fresh(all - old(all)) && old(all) <= all
      ensures calls == old(calls) + [Call(id, SetOf(secrets))]
    {
      WatchAll(secrets, id);
      ghost var named, joined := SetOf(secrets), view;
      JoinedNoneUnused(old(view), view, named, id);
      CollectUnused(Rendered(SetOf(secrets)), id);
      JoinThenLeave(old(view), joined, view, named, id);
      AfterOneMore(calls, Call(id, SetOf(secrets)));
      calls := calls + [Call(id, SetOf(secrets))];
    }
  }

  lemma JoinedOneMore(start: View, before: View, after: View, refs: seq<NamespacedName>, i: nat, id: string)
    requires i < |refs| && Joined(start, before, SetOf(refs[..i]), id)
    requires after == before[refs[i] := Consumers(before, refs[i]) + {id}]
    ensures Joined(start, after, SetOf(refs[..i + 1]), id)
  {
    assert refs[..i + 1] == refs[..i] + [refs[i]];
  }

  lemma JoinedNoneUnused(start: View, joined: View, named: set<NamespacedName>, id: string)
    requires NoneUnused(start) && Joined(start, joined, named, id)
    ensures NoneUnused(joined)
  {
    forall r | r in joined ensures joined[r] != {} {
      assert joined[r] == Consumers(joined, r);
    }
  }

  // ---------------------------------------------------------------- endpoint resources

  datatype LoadedEndpoint = LoadedEndpoint(kind: EndpointType, namespace: string, name: string, crossNamespaceAllowed: bool)
  {
    function Ref(): NamespacedName {
      NamespacedName(namespace, name)
    }

    /** A cross-namespace reference that is not allowed is not monitored. */
    predicate Skipped(gaNamespace: string) {
      namespace != "" && namespace != gaNamespace && !kind.EndpointID? && !crossNamespaceAllowed
    }
  }

  /** The resources of one type that a monitor call names. */
  function Refs(endpoints: seq<LoadedEndpoint>, kind: EndpointType, gaNamespace: string): seq<NamespacedName> {
    if endpoints == [] then []
    else (if endpoints[0].kind == kind && !endpoints[0].Skipped(gaNamespace) then [endpoints[0].Ref()] else [])
         + Refs(endpoints[1..], kind, gaNamespace)
  }

  lemma {:induction false} RefsElements(endpoints: seq<LoadedEndpoint>, kind: EndpointType, gaNamespace: string, r: NamespacedName)
    ensures r in Refs(endpoints, kind, gaNamespace) <==>
              exists e :: e in endpoints && e.kind == kind && !e.Skipped(gaNamespace) && e.Ref() == r
  {
    if endpoints != [] {
      RefsElements(endpoints[1..], kind, gaNamespace, r);
      assert endpoints == [endpoints[0]] + endpoints[1..];
    }
  }

  /** An accelerator names an object iff one of its endpoints of that type refers to it, and does so
      without a namespace, in the accelerator's own namespace, or with leave. */
  lemma NamedExactlyWhen(endpoints: seq<LoadedEndpoint>, kind: EndpointType, gaNamespace: string, namespace: string, name: string)
    requires !kind.EndpointID?
    ensures NamespacedName(namespace, name) in Refs(endpoints, kind, gaNamespace) <==>
              exists e :: e in endpoints && e.kind == kind && e.namespace == namespace && e.name == name
                && (namespace == "" || namespace == gaNamespace || e.crossNamespaceAllowed)
  {
    var r := NamespacedName(namespace, name);
    RefsElements(endpoints, kind, gaNamespace, r);
    forall e | e in endpoints && e.kind == kind
      ensures !e.Skipped(gaNamespace) && e.Ref() == r <==>
        e.namespace == namespace && e.name == name && (namespace == "" || namespace == gaNamespace || e.crossNamespaceAllowed)
    {
    }
  }

  /** The namespace of the accelerator exists, and so does any other namespace to which a grant allows
      a reference. Nothing is asked of the other endpoints, nor of names. */
  predicate Referable(ga: NamespacedName, endpoints: seq<LoadedEndpoint>) {
    '/' !in ga.namespace && forall e :: e in endpoints && e.crossNamespaceAllowed ==> '/' !in e.namespace
  }

  lemma RefsInNamespace(ga: NamespacedName, endpoints: seq<LoadedEndpoint>, kind: EndpointType)
    requires Referable(ga, endpoints) && !kind.EndpointID?
    ensures forall r :: r in Refs(endpoints, kind, ga.namespace) ==> r.InNamespace()
  {
    forall r | r in Refs(endpoints, kind, ga.namespace) ensures r.InNamespace() {
      RefsElements(endpoints, kind, ga.namespace, r);
    }
  }

  /** The call an accelerator makes on one table. */
  function NamingCall(ga: NamespacedName, endpoints: seq<LoadedEndpoint>, kind: EndpointType): Call {
    Call(ga.String(), SetOf(Refs(endpoints, kind, ga.namespace)))
  }

  /** Tables that share no watcher. */
  ghost predicate AllValid(tables: set<WatchTable>)
    reads tables, set t, w | t in tables && w in t.all :: w
  {
    && (forall t :: t in tables ==> t.Valid())
    && (forall t, u :: t in tables && u in tables && t != u ==> t.all !! u.all)
  }

  lemma EmptyTablesValid(tables: set<WatchTable>)
    requires forall t :: t in tables ==> t.Valid() && t.all == {}
    ensures AllValid(tables)
  {
  }

  /** A monitor call on one of several tables leaves the others alone. */
  method MonitorOneOf(ghost tables: set<WatchTable>, table: WatchTable, ga: NamespacedName, endpoints: seq<LoadedEndpoint>, kind: EndpointType)
    requires AllValid(tables) && table in tables && Referable(ga, endpoints) && !kind.EndpointID?
    modifies table, table.all
    ensures AllValid(tables) && fresh(table.all - old(table.all))
    ensures table.calls == old(table.calls) + [NamingCall(ga, endpoints, kind)]
  {
    RefsInNamespace(ga, endpoints, kind);
    table.Monitor(Refs(endpoints, kind, ga.namespace), ga.String());
  }

  method RemoveFromOneOf(ghost tables: set<WatchTable>, table: WatchTable, id: string)
    requires AllValid(tables) && table in tables
    modifies table, table.all
    ensures AllValid(tables) && table.all == old(table.all)
    ensures table.calls == old(table.calls) + [Call(id, {})]
  {
    table.RemoveConsumer(id);
  }

  class EndpointResourcesManager {
    const services: WatchTable
    const ingresses: WatchTable
    const gateways: WatchTable

    ghost function Tables(): set<WatchTable> {
      {services, ingresses, gateways}
    }

    ghost predicate Valid()
      reads this, services, ingresses, gateways, services.all, ingresses.all, gateways.all
    {
      services != ingresses && services != gateways && ingresses != gateways && AllValid(Tables())
    }

    constructor ()
      ensures Valid() && fresh(services) && fresh(ingresses) && fresh(gateways)
      ensures services.all == {} && ingresses.all == {} && gateways.all == {}
      ensures services.calls == [] && ingresses.calls == [] && gateways.calls == []
    {
      services := new WatchTable();
      ingresses := new WatchTable();
      gateways := new WatchTable();
      new;
      EmptyTablesValid({services, ingresses, gateways});
    }

    /** The caller consumes exactly the resources its endpoints name, type by type. */
    method MonitorEndpointResources(ga: NamespacedName, endpoints: seq<LoadedEndpoint>)
      requires Valid() && Referable(ga, endpoints)
      modifies services, ingresses, gateways, services.all, ingresses.all, gateways.all
      ensures Valid()
      ensures fresh(services.all - old(services.all)) && fresh(ingresses.all - old(ingresses.all)) && fresh(gateways.all - old(gateways.all))
      ensures services.calls == old(services.calls) + [NamingCall(ga, endpoints, Service)]
      ensures ingresses.calls == old(ingresses.calls) + [NamingCall(ga, endpoints, Ingress)]
      ensures gateways.calls == old(gateways.calls) + [NamingCall(ga, endpoints, Gateway)]
    {
      MonitorOneOf(Tables(), services, ga, endpoints, Service);
      MonitorOneOf(Tables(), ingresses, ga, endpoints, Ingress);
      MonitorOneOf(Tables(), gateways, ga, endpoints, Gateway);
    }

    method RemoveGA(ga: NamespacedName)
      requires Valid()
      modifies services, ingresses, gateways, services.all, ingresses.all, gateways.all
      ensures Valid()
      ensures services.all == old(services.all) && ingresses.all == old(ingresses.all) && gateways.all == old(gateways.all)
      ensures services.calls == old(services.calls) + [Call(ga.String(), {})]
      ensures ingresses.calls == old(ingresses.calls) + [Call(ga.String(), {})]
      ensures gateways.calls == old(gateways.calls) + [Call(ga.String(), {})]
    {
      RemoveFromOneOf(Tables(), services, ga.String());
      RemoveFromOneOf(Tables(), ingresses, ga.String());
      RemoveFromOneOf(Tables(), gateways, ga.String());
    }
  }

  /** In every state a table can reach through its methods: a resource is watched iff the latest call
      of some consumer names it, its watcher runs, and the watcher's consumers are exactly those. */
  lemma WatchedExactlyWhileNamed(table: WatchTable, r: NamespacedName)
    requires table.Valid()
    ensures r in table.watches <==> exists id :: LatestNames(table.calls, id, r)
    ensures r in table.watches ==> !table.watches[r].stopped
    ensures r in table.watches ==> forall id :: id in table.watches[r].consumers <==> LatestNames(table.calls, id, r)
  {
    LatestCallDecides(table.calls, r);
  }
}
