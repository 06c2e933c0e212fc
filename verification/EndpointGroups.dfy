/** Building Global Accelerator endpoint groups: the port-override rules within one endpoint
    group, within one listener and across all listeners. */
module EndpointGroups {
  import opened Options
  import opened PortRanges

  datatype PortOverride = PortOverride(listenerPort: int32, endpointPort: int32)

  datatype Listener = Listener(id: string, portRanges: seq<PortRange>)

  datatype GroupConfig = GroupConfig(region: Option<string>, portOverrides: Option<seq<PortOverride>>)

  datatype ListenerConfig = ListenerConfig(endpointGroups: Option<seq<GroupConfig>>)

  datatype EndpointGroup = EndpointGroup(listenerId: string, region: string, portOverrides: seq<PortOverride>)

  datatype BuildError =
    | RegionRequired
    | ListenerPortOutsideRanges(port: int32)
    | DuplicateListenerPort(port: int32)
    | DuplicateEndpointPort(port: int32)
    | EndpointPortInListenerRange(port: int32)
    | EndpointPortSharedByListeners(port: int32)

  function Overrides(g: GroupConfig): seq<PortOverride> {
    if g.portOverrides.None? then [] else g.portOverrides.value
  }

  function Groups(c: ListenerConfig): seq<GroupConfig> {
    if c.endpointGroups.None? then [] else c.endpointGroups.value
  }

  // ---------------------------------------------------------------- rules within one group

  ghost predicate ListenerPortsInside(listener: Listener, overrides: seq<PortOverride>) {
    forall o :: o in overrides ==> InRanges(o.listenerPort, listener.portRanges)
  }

  ghost predicate PortsUnique(overrides: seq<PortOverride>) {
    forall i, j :: 0 <= i < j < |overrides| ==>
      overrides[i].listenerPort != overrides[j].listenerPort && overrides[i].endpointPort != overrides[j].endpointPort
  }

  ghost predicate Repeats(earlier: seq<PortOverride>, o: PortOverride) {
    exists e :: e in earlier && (e.listenerPort == o.listenerPort || e.endpointPort == o.endpointPort)
  }

  /** The complaint about an override that repeats a port: the listener port is looked at first. */
  ghost function DuplicateOf(earlier: seq<PortOverride>, o: PortOverride): BuildError {
    if exists e :: e in earlier && e.listenerPort == o.listenerPort then DuplicateListenerPort(o.listenerPort)
    else DuplicateEndpointPort(o.endpointPort)
  }

  method ValidateListenerPorts(listener: Listener, overrides: seq<PortOverride>) returns (err: Option<BuildError>)
    ensures err.None? <==> ListenerPortsInside(listener, overrides)
    ensures err.Some? ==>
              exists i :: 0 <= i < |overrides| && ListenerPortsInside(listener, overrides[..i])
                && !InRanges(overrides[i].listenerPort, listener.portRanges)
                && err.value == ListenerPortOutsideRanges(overrides[i].listenerPort)
  {
    for i := 0 to |overrides|
      invariant forall k :: 0 <= k < i ==> InRanges(overrides[k].listenerPort, listener.portRanges)
    {
      var inside := IsPortInRanges(overrides[i].listenerPort, listener.portRanges);
      if !inside {
        return Some(ListenerPortOutsideRanges(overrides[i].listenerPort));
      }
    }
    err := None;
  }

  method ValidateNoDuplicatePorts(overrides: seq<PortOverride>) returns (err: Option<BuildError>)
    ensures err.None? <==> PortsUnique(overrides)
    ensures err.Some? ==>
              exists i :: 0 <= i < |overrides| && PortsUnique(overrides[..i]) && Repeats(overrides[..i], overrides[i])
                && err.value == DuplicateOf(overrides[..i], overrides[i])
  {
    if |overrides| <= 1 {
      return None;
    }
    var listenerPorts: set<int32>, endpointPorts: set<int32> := {}, {};
    for i := 0 to |overrides|
      invariant PortsUnique(overrides[..i])
      invariant listenerPorts == set e | e in overrides[..i] :: e.listenerPort
      invariant endpointPorts == set e | e in overrides[..i] :: e.endpointPort
    {
      ghost var earlier := overrides[..i];
      var o := overrides[i];
      assert overrides[..i + 1] == earlier + [o];
      if o.listenerPort in listenerPorts {
        RepeatedIsNotUnique(overrides, i);
        return Some(DuplicateListenerPort(o.listenerPort));
      }
      listenerPorts := listenerPorts + {o.listenerPort};
      if o.endpointPort in endpointPorts {
        RepeatedIsNotUnique(overrides, i);
        return Some(DuplicateEndpointPort(o.endpointPort));
      }
      endpointPorts := endpointPorts + {o.endpointPort};
      UniqueSnoc(earlier, o);
    }
    assert overrides[..|overrides|] == overrides;
    err := None;
  }

  lemma UniqueSnoc(earlier: seq<PortOverride>, o: PortOverride)
    requires PortsUnique(earlier) && !Repeats(earlier, o)
    ensures PortsUnique(earlier + [o])
  {
    assert forall e :: e in earlier ==> e.listenerPort != o.listenerPort && e.endpointPort != o.endpointPort;
  }

  lemma RepeatedIsNotUnique(overrides: seq<PortOverride>, i: nat)
    requires i < |overrides| && Repeats(overrides[..i], overrides[i])
    ensures !PortsUnique(overrides)
  {
    var e :| e in overrides[..i] && (e.listenerPort == overrides[i].listenerPort || e.endpointPort == overrides[i].endpointPort);
    var k :| 0 <= k < i && overrides[k] == e;
  }

  predicate RegionKnown(clusterRegion: string, g: GroupConfig) {
    (g.region.Some? && g.region.value != "") || clusterRegion != ""
  }

  function Region(clusterRegion: string, g: GroupConfig): string {
    if g.region.Some? && g.region.value != "" then g.region.value else clusterRegion
  }

  ghost predicate GroupAllowed(clusterRegion: string, listener: Listener, g: GroupConfig) {
    RegionKnown(clusterRegion, g) && ListenerPortsInside(listener, Overrides(g)) && PortsUnique(Overrides(g))
  }

  method BuildEndpointGroup(clusterRegion: string, listener: Listener, g: GroupConfig) returns (r: Result<EndpointGroup, BuildError>)
    ensures r.Ok? <==> GroupAllowed(clusterRegion, listener, g)
    ensures r.Ok? ==> r.value == EndpointGroup(listener.id, Region(clusterRegion, g), Overrides(g))
    ensures r.Ok? && g.region.Some? && g.region.value != "" ==> r.value.region == g.region.value
    ensures r.Ok? && (g.region == None || g.region == Some("")) ==> r.value.region == clusterRegion != ""
    ensures r == Err(RegionRequired) <==> (g.region == None || g.region == Some("")) && clusterRegion == ""
    ensures r.Ok? ==> r.value.listenerId == listener.id && r.value.portOverrides == (if g.portOverrides == None then [] else g.portOverrides.value)
  {
    if !RegionKnown(clusterRegion, g) {
      return Err(RegionRequired);
    }
    if g.portOverrides.Some? {
      var err := ValidateListenerPorts(listener, g.portOverrides.value);
      if err.Some? {
        return Err(err.value);
      }
      err := ValidateNoDuplicatePorts(g.portOverrides.value);
      if err.Some? {
        return Err(err.value);
      }
    }
    r := Ok(EndpointGroup(listener.id, Region(clusterRegion, g), Overrides(g)));
  }

  function Model(clusterRegion: string, listener: Listener, gs: seq<GroupConfig>): seq<EndpointGroup> {
    seq(|gs|, i requires 0 <= i < |gs| => EndpointGroup(listener.id, Region(clusterRegion, gs[i]), Overrides(gs[i])))
  }

  method BuildEndpointGroupsForListener(clusterRegion: string, listener: Listener, gs: seq<GroupConfig>)
    returns (r: Result<seq<EndpointGroup>, BuildError>)
    ensures r.Ok? <==> forall g :: g in gs ==> GroupAllowed(clusterRegion, listener, g)
    ensures r.Ok? ==> r.value == Model(clusterRegion, listener, gs)
  {
    var groups: seq<EndpointGroup> := [];
    for i := 0 to |gs|
      invariant groups == Model(clusterRegion, listener, gs[..i])
      invariant forall k :: 0 <= k < i ==> GroupAllowed(clusterRegion, listener, gs[k])
    {
      var group := BuildEndpointGroup(clusterRegion, listener, gs[i]);
      if group.Err? {
        return Err(group.error);
      }
      groups := groups + [group.value];
    }
    assert gs[..|gs|] == gs;
    r := Ok(groups);
  }

  // ---------------------------------------------------------------- rules across listeners

  method ValidateEndpointPortOutsideListeners(endpointPort: int32, listenerPortRanges: map<string, seq<PortRange>>)
    returns (err: Option<BuildError>)
    ensures err.None? <==> Outside(endpointPort, listenerPortRanges)
    ensures err.Some? ==> err.value == EndpointPortInListenerRange(endpointPort)
  {
    var remaining := listenerPortRanges.Keys;
    while remaining != {}
      invariant remaining <= listenerPortRanges.Keys
      invariant forall id :: id in listenerPortRanges && id !in remaining ==> !InRanges(endpointPort, listenerPortRanges[id])
    {
      var id :| id in remaining;
      var inside := IsPortInRanges(endpointPort, listenerPortRanges[id]);
      if inside {
        return Some(EndpointPortInListenerRange(endpointPort));
      }
      remaining := remaining - {id};
    }
    err := None;
  }

  ghost predicate Outside(port: int32, listenerPortRanges: map<string, seq<PortRange>>) {
    forall id :: id in listenerPortRanges ==> !InRanges(port, listenerPortRanges[id])
  }

  /** Every endpoint port is outside all listeners and used from one listener only. */
  ghost predicate EndpointPortsAllowed(groups: seq<EndpointGroup>, listenerPortRanges: map<string, seq<PortRange>>) {
    && (forall a, o :: a in groups && o in a.portOverrides ==> Outside(o.endpointPort, listenerPortRanges))
    && (forall a, b, o, p :: a in groups && b in groups && o in a.portOverrides && p in b.portOverrides ==>
          o.endpointPort == p.endpointPort ==> a.listenerId == b.listenerId)
  }

  /** What a complaint of the cross-listener check says is the case. */
  ghost predicate Justified(err: BuildError, groups: seq<EndpointGroup>, listenerPortRanges: map<string, seq<PortRange>>) {
    match err
    case EndpointPortInListenerRange(port) =>
      !Outside(port, listenerPortRanges) && exists a, o :: a in groups && o in a.portOverrides && o.endpointPort == port
    case EndpointPortSharedByListeners(port) =>
      exists a, b, o, p :: a in groups && b in groups && o in a.portOverrides && p in b.portOverrides
        && o.endpointPort == port && p.endpointPort == port && a.listenerId != b.listenerId
    case _ => false
  }

  lemma JustifiedForbids(err: BuildError, groups: seq<EndpointGroup>, listenerPortRanges: map<string, seq<PortRange>>)
    requires Justified(err, groups, listenerPortRanges)
    ensures !EndpointPortsAllowed(groups, listenerPortRanges)
  {
  }

  /** The usage map says, for each port used by a group of `seen` or by `part` of the current
      group, from which listener it is used. */
  ghost predicate Tracks(usage: map<int32, string>, seen: seq<EndpointGroup>, id: string, part: seq<PortOverride>) {
    && (forall a, o :: a in seen && o in a.portOverrides ==> o.endpointPort in usage && usage[o.endpointPort] == a.listenerId)
    && (forall o :: o in part ==> o.endpointPort in usage && usage[o.endpointPort] == id)
    && (forall p :: p in usage ==>
          || (exists a, o :: a in seen && o in a.portOverrides && o.endpointPort == p && a.listenerId == usage[p])
          || (exists o :: o in part && o.endpointPort == p && id == usage[p]))
  }

  method ValidateEndpointPortsAcrossListeners(groups: seq<EndpointGroup>, listenerPortRanges: map<string, seq<PortRange>>)
    returns (err: Option<BuildError>)
    ensures err.None? <==> EndpointPortsAllowed(groups, listenerPortRanges)
    ensures err.Some? ==> Justified(err.value, groups, listenerPortRanges)
  {
    var usage: map<int32, string> := map[];
    for i := 0 to |groups|
      invariant Tracks(usage, groups[..i], "", [])
      invariant AllOutside(groups[..i], listenerPortRanges)
    {
      err, usage := ValidateGroup(groups, i, usage, listenerPortRanges);
      if err.Some? {
        JustifiedForbids(err.value, groups, listenerPortRanges);
        return;
      }
      assert groups[..i + 1] == groups[..i] + [groups[i]];
      TrackGroup(usage, groups[..i], groups[i]);
    }
    assert groups[..|groups|] == groups;
    TrackedIsAllowed(usage, groups, listenerPortRanges);
    err := None;
  }

  ghost predicate OverridesOutside(overrides: seq<PortOverride>, listenerPortRanges: map<string, seq<PortRange>>) {
    forall o :: o in overrides ==> Outside(o.endpointPort, listenerPortRanges)
  }

  ghost predicate AllOutside(groups: seq<EndpointGroup>, listenerPortRanges: map<string, seq<PortRange>>) {
    forall g :: g in groups ==> OverridesOutside(g.portOverrides, listenerPortRanges)
  }

  lemma TrackedIsAllowed(usage: map<int32, string>, groups: seq<EndpointGroup>, listenerPortRanges: map<string, seq<PortRange>>)
    requires Tracks(usage, groups, "", []) && AllOutside(groups, listenerPortRanges)
    ensures EndpointPortsAllowed(groups, listenerPortRanges)
  {
  }

  /** The inner loop over the overrides of one group. */
  method ValidateGroup(groups: seq<EndpointGroup>, i: nat, usage0: map<int32, string>, listenerPortRanges: map<string, seq<PortRange>>)
    returns (err: Option<BuildError>, usage: map<int32, string>)
    requires i < |groups| && Tracks(usage0, groups[..i], groups[i].listenerId, [])
    ensures err.None? ==> Tracks(usage, groups[..i], groups[i].listenerId, groups[i].portOverrides)
    ensures err.None? ==> OverridesOutside(groups[i].portOverrides, listenerPortRanges)
    ensures err.Some? ==> Justified(err.value, groups, listenerPortRanges)
  {
    var g := groups[i];
    ghost var seen := groups[..i];
    usage := usage0;
    for k := 0 to |g.portOverrides|
      invariant Tracks(usage, seen, g.listenerId, g.portOverrides[..k])
      invariant OverridesOutside(g.portOverrides[..k], listenerPortRanges)
    {
      var o := g.portOverrides[k];
      err := ValidateEndpointPortOutsideListeners(o.endpointPort, listenerPortRanges);
      if err.Some? {
        return;
      }
      if o.endpointPort in usage && usage[o.endpointPort] != g.listenerId {
        SharedPort(groups, i, usage, g.portOverrides[..k], o, listenerPortRanges);
        err := Some(EndpointPortSharedByListeners(o.endpointPort));
        return;
      }
      TrackOne(usage, seen, g.listenerId, g.portOverrides[..k], o);
      assert g.portOverrides[..k + 1] == g.portOverrides[..k] + [o];
      usage := usage[o.endpointPort := g.listenerId];
    }
    assert g.portOverrides[..|g.portOverrides|] == g.portOverrides;
    err := None;
  }

  lemma TrackOne(usage: map<int32, string>, seen: seq<EndpointGroup>, id: string, part: seq<PortOverride>, o: PortOverride)
    requires Tracks(usage, seen, id, part) && (o.endpointPort in usage ==> usage[o.endpointPort] == id)
    ensures Tracks(usage[o.endpointPort := id], seen, id, part + [o])
  {
    assert forall x :: x in part + [o] <==> x in part || x == o;
  }

  lemma TrackGroup(usage: map<int32, string>, seen: seq<EndpointGroup>, g: EndpointGroup)
    requires Tracks(usage, seen, g.listenerId, g.portOverrides)
    ensures Tracks(usage, seen + [g], "", [])
  {
    forall p | p in usage
      ensures exists a, x :: a in seen + [g] && x in a.portOverrides && x.endpointPort == p && a.listenerId == usage[p]
    {
      if a, x :| a in seen && x in a.portOverrides && x.endpointPort == p && a.listenerId == usage[p] {
        assert a in seen + [g];
      } else {
        assert g in seen + [g];
      }
    }
  }

  lemma SharedPort(groups: seq<EndpointGroup>, i: nat, usage: map<int32, string>, part: seq<PortOverride>, o: PortOverride, ranges: map<string, seq<PortRange>>)
    requires i < |groups| && o in groups[i].portOverrides && (forall x :: x in part ==> x in groups[i].portOverrides)
    requires Tracks(usage, groups[..i], groups[i].listenerId, part)
    requires o.endpointPort in usage && usage[o.endpointPort] != groups[i].listenerId
    ensures Justified(EndpointPortSharedByListeners(o.endpointPort), groups, ranges)
  {
    var a, x :| a in groups[..i] && x in a.portOverrides && x.endpointPort == o.endpointPort && a.listenerId == usage[o.endpointPort];
    assert a in groups && groups[i] in groups;
  }

  // ---------------------------------------------------------------- all listeners

  /** What must hold of the configuration, said without reference to any order of checking. */
  ghost predicate Buildable(clusterRegion: string, listeners: seq<Listener>, configs: seq<ListenerConfig>)
    requires |listeners| <= |configs|
  {
    && (forall i, g :: 0 <= i < |listeners| && g in Groups(configs[i]) ==> GroupAllowed(clusterRegion, listeners[i], g))
    && (forall i, g, o, l :: 0 <= i < |listeners| && g in Groups(configs[i]) && o in Overrides(g) && l in listeners ==>
          !InRanges(o.endpointPort, l.portRanges))
    && (forall i, j, g, h, o, p :: 0 <= i < j < |listeners| && g in Groups(configs[i]) && h in Groups(configs[j]) ==>
          o in Overrides(g) && p in Overrides(h) ==> o.endpointPort != p.endpointPort)
  }

  predicate DistinctIds(listeners: seq<Listener>) {
    forall i, j :: 0 <= i < j < |listeners| ==> listeners[i].id != listeners[j].id
  }

  function AllGroups(clusterRegion: string, listeners: seq<Listener>, configs: seq<ListenerConfig>, n: nat): seq<EndpointGroup>
    requires n <= |listeners| <= |configs|
  {
    if n == 0 then []
    else AllGroups(clusterRegion, listeners, configs, n - 1) + Model(clusterRegion, listeners[n - 1], Groups(configs[n - 1]))
  }

  lemma {:induction false} AllGroupsElements(clusterRegion: string, listeners: seq<Listener>, configs: seq<ListenerConfig>, n: nat, e: EndpointGroup)
    requires n <= |listeners| <= |configs|
    ensures e in AllGroups(clusterRegion, listeners, configs, n) <==>
              exists i, g :: 0 <= i < n && g in Groups(configs[i])
                             && e == EndpointGroup(listeners[i].id, Region(clusterRegion, g), Overrides(g))
  {
    if n > 0 {
      AllGroupsElements(clusterRegion, listeners, configs, n - 1, e);
      var gs := Groups(configs[n - 1]);
      var added := Model(clusterRegion, listeners[n - 1], gs);
      forall g | g in gs ensures EndpointGroup(listeners[n - 1].id, Region(clusterRegion, g), Overrides(g)) in added {
        var k :| 0 <= k < |gs| && gs[k] == g;
        assert added[k] == EndpointGroup(listeners[n - 1].id, Region(clusterRegion, g), Overrides(g));
      }
      if e in added {
        var k :| 0 <= k < |added| && added[k] == e;
        assert gs[k] in gs;
      }
    }
  }

  /** Building succeeds exactly for buildable configurations, and then returns one model per
      configured endpoint group, in order. Listener ids are distinct because they carry the index
      of the listener. */
  method Build(clusterRegion: string, listeners: seq<Listener>, configs: seq<ListenerConfig>)
    returns (r: Result<seq<EndpointGroup>, BuildError>)
    requires |listeners| <= |configs| && DistinctIds(listeners)
    ensures r.Ok? <==> Buildable(clusterRegion, listeners, configs)
    ensures r.Ok? ==> r.value == AllGroups(clusterRegion, listeners, configs, |listeners|)
  {
    if |listeners| == 0 {
      return Ok([]);
    }
    var listenerPortRanges: map<string, seq<PortRange>> := map[];
    for i := 0 to |listeners|
      invariant forall k :: 0 <= k < i ==> listeners[k].id in listenerPortRanges && listenerPortRanges[listeners[k].id] == listeners[k].portRanges
      invariant forall id :: id in listenerPortRanges ==> exists k :: 0 <= k < i && listeners[k].id == id
    {
      listenerPortRanges := listenerPortRanges[listeners[i].id := listeners[i].portRanges];
    }
    var groups: seq<EndpointGroup> := [];
    for i := 0 to |listeners|
      invariant groups == AllGroups(clusterRegion, listeners, configs, i)
      invariant forall k, g :: 0 <= k < i && g in Groups(configs[k]) ==> GroupAllowed(clusterRegion, listeners[k], g)
    {
      if configs[i].endpointGroups.None? {
        continue;
      }
      var more := BuildEndpointGroupsForListener(clusterRegion, listeners[i], configs[i].endpointGroups.value);
      if more.Err? {
        return Err(more.error);
      }
      groups := groups + more.value;
    }
    CrossRulesAgree(clusterRegion, listeners, configs, listenerPortRanges);
    var err := ValidateEndpointPortsAcrossListeners(groups, listenerPortRanges);
    if err.Some? {
      return Err(err.value);
    }
    r := Ok(groups);
  }

  ghost predicate IndexedBy(listeners: seq<Listener>, ranges: map<string, seq<PortRange>>) {
    && (forall k :: 0 <= k < |listeners| ==> listeners[k].id in ranges && ranges[listeners[k].id] == listeners[k].portRanges)
    && (forall id :: id in ranges ==> exists k :: 0 <= k < |listeners| && listeners[k].id == id)
  }

  lemma CrossRulesAgree(clusterRegion: string, listeners: seq<Listener>, configs: seq<ListenerConfig>, ranges: map<string, seq<PortRange>>)
    requires |listeners| <= |configs| && DistinctIds(listeners) && IndexedBy(listeners, ranges)
    requires forall i, g :: 0 <= i < |listeners| && g in Groups(configs[i]) ==> GroupAllowed(clusterRegion, listeners[i], g)
    ensures EndpointPortsAllowed(AllGroups(clusterRegion, listeners, configs, |listeners|), ranges) <==>
              Buildable(clusterRegion, listeners, configs)
  {
    var groups := AllGroups(clusterRegion, listeners, configs, |listeners|);
    if EndpointPortsAllowed(groups, ranges) {
      AllowedIsBuildable(clusterRegion, listeners, configs, ranges);
    }
    if Buildable(clusterRegion, listeners, configs) {
      BuildableIsAllowed(clusterRegion, listeners, configs, ranges);
    }
  }

  lemma GroupOf(clusterRegion: string, listeners: seq<Listener>, configs: seq<ListenerConfig>, i: nat, g: GroupConfig)
    returns (e: EndpointGroup)
    requires i < |listeners| <= |configs| && g in Groups(configs[i])
    ensures e in AllGroups(clusterRegion, listeners, configs, |listeners|)
    ensures e.listenerId == listeners[i].id && e.portOverrides == Overrides(g)
  {
    e := EndpointGroup(listeners[i].id, Region(clusterRegion, g), Overrides(g));
    AllGroupsElements(clusterRegion, listeners, configs, |listeners|, e);
  }

  lemma AllowedIsBuildable(clusterRegion: string, listeners: seq<Listener>, configs: seq<ListenerConfig>, ranges: map<string, seq<PortRange>>)
    requires |listeners| <= |configs| && DistinctIds(listeners) && IndexedBy(listeners, ranges)
    requires forall i, g :: 0 <= i < |listeners| && g in Groups(configs[i]) ==> GroupAllowed(clusterRegion, listeners[i], g)
    requires EndpointPortsAllowed(AllGroups(clusterRegion, listeners, configs, |listeners|), ranges)
    ensures Buildable(clusterRegion, listeners, configs)
  {
    forall i, g, o, l | 0 <= i < |listeners| && g in Groups(configs[i]) && o in Overrides(g) && l in listeners
      ensures !InRanges(o.endpointPort, l.portRanges)
    {
      var e := GroupOf(clusterRegion, listeners, configs, i, g);
      assert Outside(o.endpointPort, ranges);
      var k :| 0 <= k < |listeners| && listeners[k] == l;
    }
    forall i, j, g, h, o, p | 0 <= i < j < |listeners| && g in Groups(configs[i]) && h in Groups(configs[j])
                              && o in Overrides(g) && p in Overrides(h)
      ensures o.endpointPort != p.endpointPort
    {
      var e := GroupOf(clusterRegion, listeners, configs, i, g);
      var f := GroupOf(clusterRegion, listeners, configs, j, h);
    }
  }

  lemma Origin(clusterRegion: string, listeners: seq<Listener>, configs: seq<ListenerConfig>, e: EndpointGroup)
    returns (i: nat, g: GroupConfig)
    requires |listeners| <= |configs| && e in AllGroups(clusterRegion, listeners, configs, |listeners|)
    ensures i < |listeners| && g in Groups(configs[i]) && e.listenerId == listeners[i].id && e.portOverrides == Overrides(g)
  {
    AllGroupsElements(clusterRegion, listeners, configs, |listeners|, e);
    i, g :| 0 <= i < |listeners| && g in Groups(configs[i])
            && e == EndpointGroup(listeners[i].id, Region(clusterRegion, g), Overrides(g));
  }

  lemma BuildableIsAllowed(clusterRegion: string, listeners: seq<Listener>, configs: seq<ListenerConfig>, ranges: map<string, seq<PortRange>>)
    requires |listeners| <= |configs| && DistinctIds(listeners) && IndexedBy(listeners, ranges)
    requires Buildable(clusterRegion, listeners, configs)
    ensures EndpointPortsAllowed(AllGroups(clusterRegion, listeners, configs, |listeners|), ranges)
  {
    var groups := AllGroups(clusterRegion, listeners, configs, |listeners|);
    forall a, o | a in groups && o in a.portOverrides ensures Outside(o.endpointPort, ranges) {
      var i, g := Origin(clusterRegion, listeners, configs, a);
      forall id | id in ranges ensures !InRanges(o.endpointPort, ranges[id]) {
        var k :| 0 <= k < |listeners| && listeners[k].id == id;
        assert listeners[k] in listeners;
      }
    }
    forall a, b, o, p | a in groups && b in groups && o in a.portOverrides && p in b.portOverrides && o.endpointPort == p.endpointPort
      ensures a.listenerId == b.listenerId
    {
      var i, g := Origin(clusterRegion, listeners, configs, a);
      var j, h := Origin(clusterRegion, listeners, configs, b);
      assert !(i < j) && !(j < i);
    }
  }

  /** The built groups are exactly those of the configuration: under their listener, with their own
      region or else that of the cluster, and with their overrides. */
  lemma BuiltExactlyWhen(clusterRegion: string, listeners: seq<Listener>, configs: seq<ListenerConfig>, e: EndpointGroup)
    requires |listeners| <= |configs|
    ensures e in AllGroups(clusterRegion, listeners, configs, |listeners|) <==>
              exists i, g :: 0 <= i < |listeners| && configs[i].endpointGroups.Some? && g in configs[i].endpointGroups.value
                && e.listenerId == listeners[i].id
                && e.region == (if g.region == None || g.region == Some("") then clusterRegion else g.region.value)
                && (g.portOverrides == Some(e.portOverrides) || (g.portOverrides == None && e.portOverrides == []))
  {
    AllGroupsElements(clusterRegion, listeners, configs, |listeners|, e);
    forall i, g | 0 <= i < |listeners| && g in Groups(configs[i])
      ensures e == EndpointGroup(listeners[i].id, Region(clusterRegion, g), Overrides(g)) <==>
        && e.listenerId == listeners[i].id
        && e.region == (if g.region == None || g.region == Some("") then clusterRegion else g.region.value)
        && (g.portOverrides == Some(e.portOverrides) || (g.portOverrides == None && e.portOverrides == []))
    {
    }
  }
}
