/**
  The compatible-interface properties of an exported target: the names
  listed in the four `COMPATIBLE_INTERFACE_*` properties of the target
  and of every target it links to, collected into one set.
 */
module CompatibleInterface {
  import opened Wrappers
  import opened BuildModel
  import opened ImportProperties

  const CompatibleBool := "COMPATIBLE_INTERFACE_BOOL"
  const CompatibleString := "COMPATIBLE_INTERFACE_STRING"
  const CompatibleNumberMin := "COMPATIBLE_INTERFACE_NUMBER_MIN"
  const CompatibleNumberMax := "COMPATIBLE_INTERFACE_NUMBER_MAX"

  /** The four list properties, in the order the source reads them. */
  const CompatibleProperties: seq<string> := [CompatibleBool, CompatibleString, CompatibleNumberMin, CompatibleNumberMax]

  /** The names listed in property `prop` of `t`: none when the property is unset. */
  function PropertyContents(env: Env, t: Target, prop: string): (r: set<string>)
    ensures GetProperty(t, prop).None? ==> r == {}
    ensures GetProperty(t, prop).Some? ==> forall x :: x in r <==> x in env.expandList(GetProperty(t, prop).value)
  {
    match GetProperty(t, prop)
    case None => {}
    case Some(p) => set x | x in env.expandList(p)
  }

  /** The names listed in the four compatible-interface properties of `t`. */
  function CompatibleContents(env: Env, t: Target): set<string>
  {
    PropertyContents(env, t, CompatibleBool) + PropertyContents(env, t, CompatibleString)
    + PropertyContents(env, t, CompatibleNumberMin) + PropertyContents(env, t, CompatibleNumberMax)
  }

  /** The compatible-interface names of the link items that are targets. */
  function ItemsContents(env: Env, items: seq<Option<Target>>): set<string>
  {
    if items == [] then {}
    else
      ItemsContents(env, items[..|items| - 1])
      + (if items[|items| - 1].Some? then CompatibleContents(env, items[|items| - 1].value) else {})
  }

  /** A name is collected from the link items exactly when some target among them lists it. */
  lemma {:induction false} ItemsContentsIff(env: Env, items: seq<Option<Target>>, x: string)
    ensures x in ItemsContents(env, items)
            <==> exists i :: 0 <= i < |items| && items[i].Some? && x in CompatibleContents(env, items[i].value)
    decreases |items|
  {
    if items != [] {
      var front := items[..|items| - 1];
      ItemsContentsIff(env, front, x);
      if x in ItemsContents(env, front) {
        var i :| 0 <= i < |front| && front[i].Some? && x in CompatibleContents(env, front[i].value);
        assert items[i] == front[i];
      }
      if exists i :: 0 <= i < |items| && items[i].Some? && x in CompatibleContents(env, items[i].value) {
        var i :| 0 <= i < |items| && items[i].Some? && x in CompatibleContents(env, items[i].value);
        if i < |front| {
          assert front[i] == items[i];
        }
      }
    }
  }

  /**
    `getPropertyContents(tgt, prop, ifaceProperties)`: inserts every name
    listed in the property, when it is set.
   */
  method GetPropertyContents(env: Env, tgt: Target, prop: string, ifaceProperties: set<string>) returns (r: set<string>)
    ensures r == ifaceProperties + PropertyContents(env, tgt, prop)
  {
    r := ifaceProperties;
    var p := GetProperty(tgt, prop);
    if p.None? {
      return;
    }
    var content := env.expandList(p.value);
    for i := 0 to |content|
      invariant r == ifaceProperties + set x | x in content[..i]
    {
      assert content[..i + 1] == content[..i] + [content[i]];
      r := r + {content[i]};
    }
    assert content[..|content|] == content;
  }

  /** The four compatible-interface properties of `t`, read one after the other. */
  method GetTargetContents(env: Env, t: Target, ifaceProperties: set<string>) returns (r: set<string>)
    ensures r == ifaceProperties + CompatibleContents(env, t)
  {
    r := GetPropertyContents(env, t, CompatibleBool, ifaceProperties);
    r := GetPropertyContents(env, t, CompatibleString, r);
    r := GetPropertyContents(env, t, CompatibleNumberMin, r);
    r := GetPropertyContents(env, t, CompatibleNumberMax, r);
  }

  /**
    `getCompatibleInterfaceProperties(target, ifaceProperties, config)`:
    the names of every linked target for `config`; a fatal error, and
    nothing added, when the link information cannot be computed.
   */
  method GetCompatibleInterfaceProperties(env: Env, target: Target, ifaceProperties: set<string>, config: string)
    returns (r: set<string>, msgs: seq<Severity>)
    ensures r == ifaceProperties + LinkedNames(env, target, config)
    ensures msgs == (if env.linkItems(target, config).None? then [FatalError] else [])
  {
    r, msgs := ifaceProperties, [];
    var info := env.linkItems(target, config);
    if info.None? {
      msgs := [FatalError];
      assert r == ifaceProperties + {};
      return;
    }
    var deps := info.value;
    for i := 0 to |deps|
      invariant r == ifaceProperties + ItemsContents(env, deps[..i])
    {
      assert deps[..i + 1][..i] == deps[..i];
      if deps[i].None? {
        continue;
      }
      r := GetTargetContents(env, deps[i].value, r);
    }
    assert deps[..|deps|] == deps;
  }

  /** The names collected from the link items of `config`: none when its link information cannot be computed. */
  function LinkedNames(env: Env, target: Target, config: string): set<string>
  {
    match env.linkItems(target, config)
    case None => {}
    case Some(items) => ItemsContents(env, items)
  }

  /** `acc` with the names of every configuration of `configs` added, one configuration after the other. */
  function Gather(env: Env, target: Target, acc: set<string>, configs: seq<string>): set<string>
    decreases |configs|
  {
    if configs == [] then acc
    else Gather(env, target, acc + LinkedNames(env, target, configs[0]), configs[1..])
  }

  /** `acc` followed by one fatal error for every configuration of `configs` whose link information cannot be computed. */
  function FailuresFrom(env: Env, target: Target, acc: seq<Severity>, configs: seq<string>): (msgs: seq<Severity>)
    ensures |acc| <= |msgs| <= |acc| + |configs|
    ensures forall i :: 0 <= i < |acc| ==> msgs[i] == acc[i]
    ensures forall i :: |acc| <= i < |msgs| ==> msgs[i] == FatalError
    decreases |configs|
  {
    if configs == [] then acc
    else FailuresFrom(env, target, acc + (if env.linkItems(target, configs[0]).None? then [FatalError] else []), configs[1..])
  }

  /**
    Everything `PopulateCompatibleInterfaceProperties` collects: the
    target's own names and, unless it is an interface library, the names of
    the targets it links to in the default configuration and in every
    configured one.
   */
  function CompatibleNames(env: Env, target: Target): set<string>
  {
    if target.kind != InterfaceLibrary then Gather(env, target, CompatibleContents(env, target), [""] + env.configurations)
    else CompatibleContents(env, target)
  }

  /** The messages `PopulateCompatibleInterfaceProperties` issues. */
  function CompatibleFailures(env: Env, target: Target): seq<Severity>
  {
    if target.kind != InterfaceLibrary then FailuresFrom(env, target, [], [""] + env.configurations) else []
  }

  /** The default configuration is collected first, then the configured ones. */
  lemma CollectStart(env: Env, target: Target)
    requires target.kind != InterfaceLibrary
    ensures CompatibleNames(env, target)
            == Gather(env, target, CompatibleContents(env, target) + LinkedNames(env, target, ""), env.configurations[0..])
    ensures CompatibleFailures(env, target)
            == FailuresFrom(env, target, if env.linkItems(target, "").None? then [FatalError] else [], env.configurations[0..])
  {
    var configs := [""] + env.configurations;
    assert configs[0] == "" && configs[1..] == env.configurations[0..];
    assert [] + (if env.linkItems(target, "").None? then [FatalError] else []) == (if env.linkItems(target, "").None? then [FatalError] else []);
  }

  /**
    The collecting half of `PopulateCompatibleInterfaceProperties`: the
    target's own names, then, unless it is an interface library, those of
    its link items in the default configuration and in every configured one.
   */
  method CollectCompatibleNames(env: Env, target: Target) returns (ifaceProperties: set<string>, msgs: seq<Severity>)
    ensures ifaceProperties == CompatibleNames(env, target)
    ensures msgs == CompatibleFailures(env, target)
  {
    ifaceProperties := GetTargetContents(env, target, {});
    assert ifaceProperties == CompatibleContents(env, target);
    msgs := [];
    if target.kind != InterfaceLibrary {
      var m;
      var configNames := env.configurations;
      CollectStart(env, target);
      ifaceProperties, m := GetCompatibleInterfaceProperties(env, target, ifaceProperties, "");
      msgs := m;
      for i := 0 to |configNames|
        invariant Gather(env, target, ifaceProperties, configNames[i..]) == CompatibleNames(env, target)
        invariant FailuresFrom(env, target, msgs, configNames[i..]) == CompatibleFailures(env, target)
      {
        assert configNames[i..][0] == configNames[i] && configNames[i..][1..] == configNames[i + 1..];
        ifaceProperties, m := GetCompatibleInterfaceProperties(env, target, ifaceProperties, configNames[i]);
        msgs := msgs + m;
      }
    }
  }

  /** An interface library contributes only its own names, and issues nothing. */
  lemma InterfaceLibraryOwnNames(env: Env, target: Target)
    requires target.kind == InterfaceLibrary
    ensures CompatibleNames(env, target) == CompatibleContents(env, target)
    ensures CompatibleFailures(env, target) == []
  {
  }

  /**
    A name is gathered exactly when it was already there, or some target
    linked in one of the configurations lists it.
   */
  lemma {:induction false} GatherIff(env: Env, target: Target, acc: set<string>, configs: seq<string>, x: string)
    ensures x in Gather(env, target, acc, configs)
            <==> x in acc || exists i :: 0 <= i < |configs| && x in LinkedNames(env, target, configs[i])
    decreases |configs|
  {
    if configs != [] {
      var rest := configs[1..];
      GatherIff(env, target, acc + LinkedNames(env, target, configs[0]), rest, x);
      if exists i :: 0 <= i < |rest| && x in LinkedNames(env, target, rest[i]) {
        var i :| 0 <= i < |rest| && x in LinkedNames(env, target, rest[i]);
        assert configs[i + 1] == rest[i];
      }
      if exists i :: 0 <= i < |configs| && x in LinkedNames(env, target, configs[i]) {
        var i :| 0 <= i < |configs| && x in LinkedNames(env, target, configs[i]);
        if i > 0 {
          assert rest[i - 1] == configs[i];
        }
      }
    }
  }

  /** The `INTERFACE_<name>` property of every collected name. */
  function InterfaceKeys(names: set<string>): set<string>
  {
    set p | p in names :: "INTERFACE_" + p
  }

  /** The four list properties themselves. */
  function CompatibleKeys(): set<string>
  {
    set p | p in CompatibleProperties
  }

  /** Every key `PopulateCompatibleInterfaceProperties` copies from the target. */
  function CopiedKeys(env: Env, target: Target): set<string>
  {
    CompatibleKeys() + InterfaceKeys(CompatibleNames(env, target))
  }

  /** Copying the four list properties one after the other copies exactly them. */
  lemma CompatibleCopyStart(t: Target, m: ImportPropertyMap)
    ensures CopyKeys(t, CompatibleKeys(), m)
            == CopyKey(t, CompatibleNumberMax, CopyKey(t, CompatibleNumberMin, CopyKey(t, CompatibleString, CopyKey(t, CompatibleBool, m))))
  {
    var k0: set<string> := {};
    var k1 := k0 + {CompatibleBool};
    var k2 := k1 + {CompatibleString};
    var k3 := k2 + {CompatibleNumberMin};
    var k4 := k3 + {CompatibleNumberMax};
    CopyKeysNone(t, m);
    CopyKeysInsert(t, k0, CompatibleBool, m);
    CopyKeysInsert(t, k1, CompatibleString, m);
    CopyKeysInsert(t, k2, CompatibleNumberMin, m);
    CopyKeysInsert(t, k3, CompatibleNumberMax, m);
    assert k4 == CompatibleKeys();
  }

  /** Visiting one more name, whichever it is, copies its `INTERFACE_` property after the others. */
  lemma {:induction false} InterfaceCopyStep(t: Target, base: set<string>, names: set<string>, rest: set<string>, p: string, m: ImportPropertyMap)
    requires p in rest && rest <= names
    ensures CopyKeys(t, base + InterfaceKeys(names - (rest - {p})), m)
            == CopyKey(t, "INTERFACE_" + p, CopyKeys(t, base + InterfaceKeys(names - rest), m))
  {
    assert base + InterfaceKeys(names - (rest - {p})) == base + InterfaceKeys(names - rest) + {"INTERFACE_" + p};
    CopyKeysInsert(t, base + InterfaceKeys(names - rest), "INTERFACE_" + p, m);
  }
}
