/** Load balancer addons and their record in the annotations of a Gateway. */
module Addons {
  datatype Addon = WAFv2 | Shield | ProvisionedCapacity

  const ALL_ADDONS := [WAFv2, Shield, ProvisionedCapacity]
  const ADDON_PREFIX := "gateway.k8s.aws.addon."

  type Annotations = map<string, string>

  datatype AddonMetadata = AddonMetadata(name: Addon, enabled: bool)

  function Key(a: Addon): string {
    ADDON_PREFIX + match a case WAFv2 => "wafv2" case Shield => "shield" case ProvisionedCapacity => "provisionedcapacity"
  }

  /** The texts `strconv.ParseBool` reads as true; anything else counts as disabled. */
  predicate EnabledValue(v: string) {
    v in ["1", "t", "T", "TRUE", "true", "True"]
  }

  /** The addons an annotation map records as enabled. */
  function RecordedIn(annotations: Annotations): set<Addon> {
    set a: Addon | Key(a) in annotations && EnabledValue(annotations[Key(a)])
  }

  lemma KeysDistinct(a: Addon, b: Addon)
    requires Key(a) == Key(b)
    ensures a == b
  {
    assert Key(a)[|ADDON_PREFIX|] == match a case WAFv2 => 'w' case Shield => 's' case ProvisionedCapacity => 'p';
    assert Key(b)[|ADDON_PREFIX|] == match b case WAFv2 => 'w' case Shield => 's' case ProvisionedCapacity => 'p';
  }

  /** One entry per addon with an annotation, in the order of the map iteration. */
  method GetStoredAddonConfig(annotations: Annotations) returns (stored: seq<AddonMetadata>)
    ensures forall m :: m in stored <==> Key(m.name) in annotations && m.enabled == EnabledValue(annotations[Key(m.name)])
    ensures EnabledIn(stored) == RecordedIn(annotations)
  {
    stored := [];
    var remaining := annotations.Keys;
    while remaining != {}
      invariant remaining <= annotations.Keys
      invariant forall m :: m in stored <==> Key(m.name) in annotations && Key(m.name) !in remaining
                                             && m.enabled == EnabledValue(annotations[Key(m.name)])
    {
      var key :| key in remaining;
      remaining := remaining - {key};
      ghost var before := stored;
      if ADDON_PREFIX <= key {
        for i := 0 to |ALL_ADDONS|
          invariant forall m :: m in stored <==>
                      m in before || (Key(m.name) == key && m.name in ALL_ADDONS[..i] && m.enabled == EnabledValue(annotations[key]))
        {
          var ao := ALL_ADDONS[i];
          assert ALL_ADDONS[..i + 1] == ALL_ADDONS[..i] + [ao];
          if key == Key(ao) {
            stored := stored + [AddonMetadata(ao, EnabledValue(annotations[key]))];
          }
        }
        assert ALL_ADDONS[..|ALL_ADDONS|] == ALL_ADDONS;
        AllAddonsListed();
      } else {
        forall a: Addon ensures Key(a) != key {
          assert ADDON_PREFIX <= Key(a);
        }
      }
    }
    forall a: Addon ensures a in EnabledIn(stored) <==> a in RecordedIn(annotations) {
      assert AddonMetadata(a, true).name == a && AddonMetadata(a, true).enabled;
      assert a in RecordedIn(annotations) ==> AddonMetadata(a, true) in stored;
    }
  }

  lemma AllAddonsListed()
    ensures forall a: Addon :: a in ALL_ADDONS
  {
    assert ALL_ADDONS[0] == WAFv2 && ALL_ADDONS[1] == Shield && ALL_ADDONS[2] == ProvisionedCapacity;
    forall a: Addon ensures a in ALL_ADDONS {
      match a case WAFv2 => case Shield => case ProvisionedCapacity =>
    }
  }

  function SetOf(addons: seq<Addon>): set<Addon> {
    set a | a in addons
  }

  function EnabledIn(config: seq<AddonMetadata>): set<Addon> {
    set m | m in config && m.enabled :: m.name
  }

  method DiffAddOns(old0: seq<Addon>, new0: seq<AddonMetadata>) returns (additions: set<Addon>, removals: set<Addon>)
    ensures additions == EnabledIn(new0) - SetOf(old0) && removals == SetOf(old0) - EnabledIn(new0)
  {
    additions, removals := {}, {};
    var oldSet := SetOf(old0);
    var newSet: set<Addon> := {};
    for i := 0 to |new0|
      invariant newSet == EnabledIn(new0[..i]) && additions == newSet - oldSet
    {
      var item := new0[i];
      assert new0[..i + 1] == new0[..i] + [item];
      if item.enabled {
        newSet := newSet + {item.name};
      }
      if item.name !in oldSet && item.enabled {
        additions := additions + {item.name};
      }
    }
    assert new0[..|new0|] == new0;
    for i := 0 to |old0|
      invariant removals == SetOf(old0[..i]) - newSet
    {
      assert old0[..i + 1] == old0[..i] + [old0[i]];
      if old0[i] !in newSet {
        removals := removals + {old0[i]};
      }
    }
    assert old0[..|old0|] == old0;
  }

  /** The annotations with the given addons recorded as enabled or disabled. */
  function Recording(annotations: Annotations, changes: set<Addon>, enabled: bool): Annotations {
    annotations + map a | a in changes :: Key(a) := if enabled then "true" else "false"
  }

  lemma RecordingRecords(annotations: Annotations, changes: set<Addon>, enabled: bool)
    ensures RecordedIn(Recording(annotations, changes, enabled)) ==
              if enabled then RecordedIn(annotations) + changes else RecordedIn(annotations) - changes
    ensures forall k :: (forall a :: a in changes ==> Key(a) != k) ==>
              (k in Recording(annotations, changes, enabled) <==> k in annotations)
              && (k in annotations ==> Recording(annotations, changes, enabled)[k] == annotations[k])
  {
    forall a, b | a in changes && Key(a) == Key(b) ensures a == b {
      KeysDistinct(a, b);
    }
    assert EnabledValue("true") by {
      assert ["1", "t", "T", "TRUE", "true", "True"][4] == "true";
    }
    assert !EnabledValue("false");
    var after := Recording(annotations, changes, enabled);
    forall a: Addon ensures a in RecordedIn(after) <==> if a in changes then enabled else a in RecordedIn(annotations) {
      if a in changes {
        assert Key(a) in after && after[Key(a)] == if enabled then "true" else "false";
      }
    }
  }

  method PersistAddOns(annotations: Annotations, changes: seq<Addon>, remove: bool) returns (updated: Annotations)
    ensures updated == Recording(annotations, SetOf(changes), !remove)
  {
    var value := if remove then "false" else "true";
    updated := annotations;
    for i := 0 to |changes|
      invariant updated == Recording(annotations, SetOf(changes[..i]), !remove)
    {
      assert SetOf(changes[..i + 1]) == SetOf(changes[..i]) + {changes[i]};
      RecordingOneMore(annotations, SetOf(changes[..i]), changes[i], !remove);
      updated := updated[Key(changes[i]) := value];
    }
    assert changes[..|changes|] == changes;
  }

  lemma RecordingOneMore(annotations: Annotations, changes: set<Addon>, a: Addon, enabled: bool)
    ensures Recording(annotations, changes + {a}, enabled) ==
              Recording(annotations, changes, enabled)[Key(a) := if enabled then "true" else "false"]
  {
  }

  /** How the record looks in the annotations of a Gateway. */
  lemma RecordExamples(value: string)
    ensures EnabledValue(value) <==> value == "1" || value == "t" || value == "T" || value == "true" || value == "TRUE" || value == "True"
    ensures Key(WAFv2) == "gateway.k8s.aws.addon.wafv2" && Key(Shield) == "gateway.k8s.aws.addon.shield"
            && Key(ProvisionedCapacity) == "gateway.k8s.aws.addon.provisionedcapacity"
    ensures RecordedIn(map["gateway.k8s.aws.addon.shield" := value]) == if EnabledValue(value) then {Shield} else {}
  {
    var yes := ["1", "t", "T", "TRUE", "true", "True"];
    assert yes[0] == "1" && yes[1] == "t" && yes[2] == "T" && yes[3] == "TRUE" && yes[4] == "true" && yes[5] == "True";
    assert "gateway.k8s.aws.addon.wafv2"[22] == 'w' && "gateway.k8s.aws.addon.shield"[22] == 's'
           && "gateway.k8s.aws.addon.provisionedcapacity"[22] == 'p';
  }
}
