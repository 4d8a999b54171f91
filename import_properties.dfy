/**
  The property map the generator fills for one target: the property names
  it writes, the per-configuration suffix, and what it means for an
  operation to touch only its own keys.
 */
module ImportProperties {
  import opened Wrappers
  import opened Text
  import opened BuildModel
  import opened Namespacing

  const InterfaceLinkLibrariesKey := "INTERFACE_LINK_LIBRARIES"
  const InterfaceIncludeDirectoriesKey := "INTERFACE_INCLUDE_DIRECTORIES"
  const LinkInterfaceLibrariesKey := "LINK_INTERFACE_LIBRARIES"
  const ImportedLibrariesKey := "IMPORTED_LINK_INTERFACE_LIBRARIES"
  const ImportedLanguagesKey := "IMPORTED_LINK_INTERFACE_LANGUAGES"
  const ImportedDependentKey := "IMPORTED_LINK_DEPENDENT_LIBRARIES"
  const ImportedMultiplicityKey := "IMPORTED_LINK_INTERFACE_MULTIPLICITY"
  const ImportedSonameKey := "IMPORTED_SONAME"
  const ImportedNoSonameKey := "IMPORTED_NO_SONAME"

  /** The configuration as it appears in property names: upper-cased, `NOCONFIG` for the empty configuration. */
  function ConfigLabel(config: string): (l: string)
    ensures l != []
    ensures config != [] ==> |l| == |config|
  {
    if config != [] then Upper(config) else "NOCONFIG"
  }

  /**
    The suffix `GenerateImportConfig` builds for `config`: `_` and the
    upper-cased configuration, or `_NOCONFIG`.
   */
  function Suffix(config: string): (suffix: string)
    ensures |suffix| >= 2 && suffix[0] == '_'
    ensures suffix[1..] == ConfigLabel(config)
    ensures config != [] ==> forall i :: 0 <= i < |config| ==> suffix[i + 1] == UpperChar(config[i])
    ensures config == [] ==> suffix == "_NOCONFIG"
  {
    "_" + ConfigLabel(config)
  }

  /**
    Two configurations get the same suffix exactly when they get the same
    label; two non-empty configurations, exactly when they agree up to
    letter case. (The empty configuration and any spelling of `noconfig`
    share a label: see `NoConfigCollides`.)
   */
  lemma SuffixDistinguishes(c1: string, c2: string)
    ensures Suffix(c1) == Suffix(c2) <==> ConfigLabel(c1) == ConfigLabel(c2)
    ensures c1 != [] && c2 != [] ==> (Suffix(c1) == Suffix(c2) <==> Upper(c1) == Upper(c2))
  {
    assert Suffix(c1)[1..] == ConfigLabel(c1);
    assert Suffix(c2)[1..] == ConfigLabel(c2);
  }

  /** The configuration `noconfig` writes its properties under the keys of the empty configuration. */
  lemma NoConfigCollides()
    ensures Suffix("noconfig") == Suffix([])
  {
    var u := Upper("noconfig");
    assert u[0] == 'N' && u[1] == 'O' && u[2] == 'C' && u[3] == 'O';
    assert u[4] == 'N' && u[5] == 'F' && u[6] == 'I' && u[7] == 'G';
    assert u == "NOCONFIG";
  }

  /** `m1` and `m2` agree at `k`: both lack it, or both map it to the same value. */
  predicate SameAt(m1: ImportPropertyMap, m2: ImportPropertyMap, k: string)
  {
    (k in m1 <==> k in m2) && (k in m1 && k in m2 ==> m1[k] == m2[k])
  }

  /** Agreeing at a key is transitive. */
  lemma SameAtTrans(m1: ImportPropertyMap, m2: ImportPropertyMap, m3: ImportPropertyMap, k: string)
    requires SameAt(m1, m2, k) && SameAt(m2, m3, k)
    ensures SameAt(m1, m3, k)
  {
  }

  /** Every key other than `key` is as it was. */
  ghost predicate OnlyKeyChanged(m1: ImportPropertyMap, m2: ImportPropertyMap, key: string)
  {
    forall k :: k != key ==> SameAt(m1, m2, k)
  }

  /** `PopulateInterfaceProperty(name, target, properties)`: the raw property, when the target has it. */
  function CopyKey(t: Target, key: string, m: ImportPropertyMap): (r: ImportPropertyMap)
    ensures OnlyKeyChanged(m, r, key)
    ensures key in t.properties ==> key in r && r[key] == t.properties[key]
    ensures key !in t.properties ==> r == m
  {
    if key in t.properties then m[key := t.properties[key]] else m
  }

  /**
    Every key of `keys` that the target has, copied from the target; all
    other keys as in `m`.
   */
  function CopyKeys(t: Target, keys: set<string>, m: ImportPropertyMap): (r: ImportPropertyMap)
    ensures forall k :: k in keys && k in t.properties ==> k in r && r[k] == t.properties[k]
    ensures forall k :: !(k in keys && k in t.properties) ==> SameAt(m, r, k)
  {
    map k | k in m.Keys + (keys * t.properties.Keys) :: if k in keys && k in t.properties then t.properties[k] else m[k]
  }

  /** Copying no key leaves the map as it is. */
  lemma CopyKeysNone(t: Target, m: ImportPropertyMap)
    ensures CopyKeys(t, {}, m) == m
  {
    assert CopyKeys(t, {}, m).Keys == m.Keys;
  }

  /** Copying one more key, in any order, is copying it after the others. */
  lemma CopyKeysInsert(t: Target, keys: set<string>, key: string, m: ImportPropertyMap)
    ensures CopyKeys(t, keys + {key}, m) == CopyKey(t, key, CopyKeys(t, keys, m))
  {
    var a := CopyKeys(t, keys + {key}, m);
    var b := CopyKey(t, key, CopyKeys(t, keys, m));
    assert a.Keys == b.Keys;
    forall k | k in a
      ensures a[k] == b[k]
    {
    }
  }

  /** Two names differ when they differ at a position both have: keys built on them keep apart whatever follows. */
  lemma DiffersAt(a: string, b: string, s: string, t: string, i: nat)
    requires i < |a| && i < |b| && a[i] != b[i]
    ensures a + s != b + t
  {
    assert (a + s)[i] == a[i] && (b + t)[i] == b[i];
  }

  /** The per-configuration keys `SetImportDetailProperties` may write are pairwise distinct. */
  lemma DetailKeysDistinct(suffix: string)
    ensures ImportedSonameKey + suffix != ImportedNoSonameKey + suffix
    ensures ImportedSonameKey + suffix != ImportedLanguagesKey + suffix
    ensures ImportedSonameKey + suffix != ImportedDependentKey + suffix
    ensures ImportedSonameKey + suffix != ImportedMultiplicityKey + suffix
    ensures ImportedNoSonameKey + suffix != ImportedLanguagesKey + suffix
    ensures ImportedNoSonameKey + suffix != ImportedDependentKey + suffix
    ensures ImportedNoSonameKey + suffix != ImportedMultiplicityKey + suffix
    ensures ImportedLanguagesKey + suffix != ImportedDependentKey + suffix
    ensures ImportedLanguagesKey + suffix != ImportedMultiplicityKey + suffix
    ensures ImportedDependentKey + suffix != ImportedMultiplicityKey + suffix
  {
    DiffersAt(ImportedSonameKey, ImportedNoSonameKey, suffix, suffix, 9);
    DiffersAt(ImportedSonameKey, ImportedLanguagesKey, suffix, suffix, 9);
    DiffersAt(ImportedSonameKey, ImportedDependentKey, suffix, suffix, 9);
    DiffersAt(ImportedSonameKey, ImportedMultiplicityKey, suffix, suffix, 9);
    DiffersAt(ImportedNoSonameKey, ImportedLanguagesKey, suffix, suffix, 9);
    DiffersAt(ImportedNoSonameKey, ImportedDependentKey, suffix, suffix, 9);
    DiffersAt(ImportedNoSonameKey, ImportedMultiplicityKey, suffix, suffix, 9);
    DiffersAt(ImportedLanguagesKey, ImportedDependentKey, suffix, suffix, 14);
    DiffersAt(ImportedLanguagesKey, ImportedMultiplicityKey, suffix, suffix, 24);
    DiffersAt(ImportedDependentKey, ImportedMultiplicityKey, suffix, suffix, 14);
  }

  /** A platform whose shared libraries are DLLs, which have no soname. */
  predicate IsDllPlatform(env: Env)
  {
    env.isOn("WIN32") || env.isOn("CYGWIN") || env.isOn("MINGW")
  }

  /** The target gets a soname property: a shared or module library on a platform without DLLs. */
  predicate HasSonameSlot(env: Env, t: Target)
  {
    (t.kind == SharedLibrary || t.kind == ModuleLibrary) && !IsDllPlatform(env)
  }

  /** The value of `IMPORTED_SONAME`: the soname, behind the install-name directory on platforms that have one. */
  function SonameValue(env: Env, t: Target, config: string, so: string): (v: string)
    ensures !env.isOn("CMAKE_PLATFORM_HAS_INSTALLNAME") ==> v == so
    ensures |v| >= |so| && v[|v| - |so|..] == so
  {
    (if env.isOn("CMAKE_PLATFORM_HAS_INSTALLNAME") then env.installNameDir(t, config) else "") + so
  }

  /**
    The old-style link interface `SetImportLinkInterface` exports: the
    per-configuration `LINK_INTERFACE_LIBRARIES<suffix>` when it is set,
    else the plain `LINK_INTERFACE_LIBRARIES`, else none.
   */
  function LinkInterfaceContent(t: Target, suffix: string): (r: Option<string>)
    ensures GetProperty(t, LinkInterfaceLibrariesKey + suffix).Some? ==> r == GetProperty(t, LinkInterfaceLibrariesKey + suffix)
    ensures GetProperty(t, LinkInterfaceLibrariesKey + suffix).None? ==> r == GetProperty(t, LinkInterfaceLibrariesKey)
  {
    if GetProperty(t, LinkInterfaceLibrariesKey + suffix).Some? then GetProperty(t, LinkInterfaceLibrariesKey + suffix)
    else GetProperty(t, LinkInterfaceLibrariesKey)
  }

  /** Policy CMP0022 is set to NEW (or required): the old-style properties should no longer be used. */
  predicate NewLinkInterfaceBehavior(p: PolicyStatus)
  {
    p != WARN && p != OLD
  }

  /** One of the five per-configuration keys `SetImportDetailProperties` may write. */
  predicate DetailKey(suffix: string, k: string)
  {
    || k == ImportedSonameKey + suffix
    || k == ImportedNoSonameKey + suffix
    || k == ImportedLanguagesKey + suffix
    || k == ImportedDependentKey + suffix
    || k == ImportedMultiplicityKey + suffix
  }

  /**
    The soname keys after `SetImportDetailProperties`: with a soname slot,
    exactly one of `IMPORTED_SONAME<suffix>` and `IMPORTED_NO_SONAME<suffix>`
    is written, the other left as it was; without one, both are left.
   */
  predicate SonameSet(env: Env, t: Target, config: string, suffix: string, before: ImportPropertyMap, after: ImportPropertyMap)
  {
    && (HasSonameSlot(env, t) && env.soName(t, config).Some? ==>
          && ImportedSonameKey + suffix in after
          && after[ImportedSonameKey + suffix] == SonameValue(env, t, config, env.soName(t, config).value)
          && SameAt(before, after, ImportedNoSonameKey + suffix))
    && (HasSonameSlot(env, t) && env.soName(t, config).None? ==>
          && ImportedNoSonameKey + suffix in after
          && after[ImportedNoSonameKey + suffix] == "TRUE"
          && SameAt(before, after, ImportedSonameKey + suffix))
    && (!HasSonameSlot(env, t) ==>
          SameAt(before, after, ImportedSonameKey + suffix) && SameAt(before, after, ImportedNoSonameKey + suffix))
  }

  /** `after` holds `value` at `key` when `present`, and otherwise agrees with `before` there. */
  predicate KeyResult(before: ImportPropertyMap, after: ImportPropertyMap, key: string, present: bool, value: string)
  {
    (present ==> key in after && after[key] == value) && (!present ==> SameAt(before, after, key))
  }

  /** A later step that leaves the key alone keeps its result. */
  lemma KeyResultThen(before: ImportPropertyMap, mid: ImportPropertyMap, after: ImportPropertyMap,
                      key: string, present: bool, value: string)
    requires KeyResult(before, mid, key, present, value) && SameAt(mid, after, key)
    ensures KeyResult(before, after, key, present, value)
  {
  }

  /** An earlier step that left the key alone does not change its result. */
  lemma KeyResultAfter(before: ImportPropertyMap, mid: ImportPropertyMap, after: ImportPropertyMap,
                       key: string, present: bool, value: string)
    requires SameAt(before, mid, key) && KeyResult(mid, after, key, present, value)
    ensures KeyResult(before, after, key, present, value)
  {
  }

  /**
    The link keys after `SetImportDetailProperties` for a target with link
    interface `iface`, where `lk`, `dk` and `mk` are its languages,
    dependent-libraries and multiplicity keys: the namespaced languages
    (recording missing targets) and dependent shared libraries (not
    recording them), each only when there are any, and the multiplicity
    only when it is positive.
   */
  ghost predicate LinkDetailsSet(c: Config, target: Target, iface: LinkInterface, lk: string, dk: string, mk: string,
                                 before: ImportPropertyMap, after: ImportPropertyMap,
                                 missing: seq<string>, missingOut: seq<string>)
  {
    var languages := NamespaceAll(c, target, iface.languages, missing);
    && missingOut == languages.missing
    && KeyResult(before, after, lk, iface.languages != [], Join(languages.names, ";"))
    && KeyResult(before, after, dk, iface.sharedDeps != [], Join(NamespaceAll(c, target, iface.sharedDeps, []).names, ";"))
    && KeyResult(before, after, mk, iface.multiplicity > 0, Decimal(iface.multiplicity))
  }

  /** The three updates of `SetImportDetailProperties`' link half, one after the other, give `LinkDetailsSet` and touch no other key. */
  lemma LinkDetailsCompose(c: Config, target: Target, iface: LinkInterface, lk: string, dk: string, mk: string,
                           before: ImportPropertyMap, m1: ImportPropertyMap, m2: ImportPropertyMap, after: ImportPropertyMap,
                           missing: seq<string>, missingOut: seq<string>)
    requires lk != dk && lk != mk && dk != mk
    requires missingOut == NamespaceAll(c, target, iface.languages, missing).missing
    requires KeyResult(before, m1, lk, iface.languages != [], Join(NamespaceAll(c, target, iface.languages, missing).names, ";"))
    requires OnlyKeyChanged(before, m1, lk)
    requires KeyResult(m1, m2, dk, iface.sharedDeps != [], Join(NamespaceAll(c, target, iface.sharedDeps, []).names, ";"))
    requires OnlyKeyChanged(m1, m2, dk)
    requires KeyResult(m2, after, mk, iface.multiplicity > 0, Decimal(iface.multiplicity))
    requires OnlyKeyChanged(m2, after, mk)
    ensures LinkDetailsSet(c, target, iface, lk, dk, mk, before, after, missing, missingOut)
    ensures forall k :: k != lk && k != dk && k != mk ==> SameAt(before, after, k)
  {
    var langs := Join(NamespaceAll(c, target, iface.languages, missing).names, ";");
    var deps := Join(NamespaceAll(c, target, iface.sharedDeps, []).names, ";");
    KeyResultThen(before, m1, m2, lk, iface.languages != [], langs);
    KeyResultThen(before, m2, after, lk, iface.languages != [], langs);
    KeyResultAfter(before, m1, m2, dk, iface.sharedDeps != [], deps);
    KeyResultThen(before, m2, after, dk, iface.sharedDeps != [], deps);
    SameAtTrans(before, m1, m2, mk);
    KeyResultAfter(before, m2, after, mk, iface.multiplicity > 0, Decimal(iface.multiplicity));
    forall k | k != lk && k != dk && k != mk
      ensures SameAt(before, after, k)
    {
      SameAtTrans(before, m1, m2, k);
      SameAtTrans(before, m2, after, k);
    }
  }

  /** Setting the link keys after the soname keys keeps what the soname step did. */
  lemma LinkDetailsKeepSoname(c: Config, target: Target, iface: LinkInterface, sk: string, nk: string,
                              lk: string, dk: string, mk: string,
                              before: ImportPropertyMap, mid: ImportPropertyMap, after: ImportPropertyMap,
                              missing: seq<string>, missingOut: seq<string>)
    requires sk != lk && sk != dk && sk != mk && nk != lk && nk != dk && nk != mk
    requires LinkDetailsSet(c, target, iface, lk, dk, mk, mid, after, missing, missingOut)
    requires forall k :: k != lk && k != dk && k != mk ==> SameAt(mid, after, k)
    requires forall k :: k != sk && k != nk ==> SameAt(before, mid, k)
    ensures LinkDetailsSet(c, target, iface, lk, dk, mk, before, after, missing, missingOut)
    ensures SameAt(mid, after, sk) && SameAt(mid, after, nk)
    ensures forall k :: k != sk && k != nk && k != lk && k != dk && k != mk ==> SameAt(before, after, k)
  {
    KeyResultAfter(before, mid, after, lk, iface.languages != [], Join(NamespaceAll(c, target, iface.languages, missing).names, ";"));
    KeyResultAfter(before, mid, after, dk, iface.sharedDeps != [], Join(NamespaceAll(c, target, iface.sharedDeps, []).names, ";"));
    KeyResultAfter(before, mid, after, mk, iface.multiplicity > 0, Decimal(iface.multiplicity));
    forall k | k != sk && k != nk && k != lk && k != dk && k != mk
      ensures SameAt(before, after, k)
    {
      SameAtTrans(before, mid, after, k);
    }
  }
}
