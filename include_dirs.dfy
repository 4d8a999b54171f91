/**
  The two file-local helpers of `PopulateIncludeDirectoriesInterface`:
  `prefixItems`, which makes the relative entries of an `INCLUDES
  DESTINATION` list relative to the installation prefix, and
  `checkInterfaceDirs`, which vets every entry of the final include list
  (policy CMP0041 and the source, build and install directories).
 */
module IncludeDirs {
  import opened Wrappers
  import opened Text
  import opened BuildModel

  /** The variable the generated file sets to the installation prefix. */
  const ImportPrefix := "${_IMPORT_PREFIX}"

  /** What `prefixItems` puts in front of a relative entry. */
  const ImportPrefixDir := "${_IMPORT_PREFIX}/"

  /** The prefix `ImportPrefixDir` starts with the variable itself. */
  lemma ImportPrefixDirStarts(e: string)
    ensures HasPrefix(ImportPrefixDir + e, ImportPrefix)
    ensures Contains(ImportPrefixDir + e, ImportPrefix)
  {
    assert (ImportPrefixDir + e)[..|ImportPrefix|] == ImportPrefix;
    assert MatchAt(ImportPrefixDir + e, ImportPrefix, 0);
    ContainsIff(ImportPrefixDir + e, ImportPrefix);
  }

  /**
    One entry as `prefixItems` leaves it: a relative entry that does not
    mention `${_IMPORT_PREFIX}` gets `${_IMPORT_PREFIX}/` in front, every
    other entry stays as it is. Afterwards every entry is a full path or
    refers to the installation prefix.
   */
  function PrefixItem(env: Env, e: string): (r: string)
    ensures r == e || r == ImportPrefixDir + e
    ensures r != e <==> !env.fileIsFullPath(e) && !Contains(e, ImportPrefix)
    ensures env.fileIsFullPath(e) || Contains(r, ImportPrefix)
  {
    ImportPrefixDirStarts(e);
    if !env.fileIsFullPath(e) && !Contains(e, ImportPrefix) then ImportPrefixDir + e else e
  }

  /** `PrefixItem` applied to every entry. */
  function PrefixAll(env: Env, entries: seq<string>): (r: seq<string>)
    ensures |r| == |entries|
    ensures forall i :: 0 <= i < |entries| ==> r[i] == PrefixItem(env, entries[i])
  {
    seq(|entries|, i requires 0 <= i < |entries| => PrefixItem(env, entries[i]))
  }

  /** Prefixing twice is prefixing once: a prefixed entry mentions `${_IMPORT_PREFIX}`. */
  lemma PrefixItemIdempotent(env: Env, e: string)
    ensures PrefixItem(env, PrefixItem(env, e)) == PrefixItem(env, e)
  {
    if PrefixItem(env, e) != e {
      ImportPrefixDirStarts(e);
    }
  }

  /** Prefixing one more entry appends it, after a `;` unless it is the first. */
  lemma {:induction false} PrefixAllSnoc(env: Env, entries: seq<string>, i: nat)
    requires i < |entries|
    ensures Join(PrefixAll(env, entries[..i + 1]), ";")
            == Join(PrefixAll(env, entries[..i]), ";") + (if i == 0 then "" else ";") + PrefixItem(env, entries[i])
  {
    assert PrefixAll(env, entries[..i + 1]) == PrefixAll(env, entries[..i]) + [PrefixItem(env, entries[i])];
    JoinSnoc(PrefixAll(env, entries[..i]), PrefixItem(env, entries[i]), ";");
  }

  /**
    `prefixItems(exportDirs)`: split the list, prefix the relative entries,
    and join the entries again with `;`.
   */
  method PrefixItems(env: Env, exportDirs: string) returns (r: string)
    ensures r == Join(PrefixAll(env, env.split(exportDirs)), ";")
  {
    var entries := env.split(exportDirs);
    r := "";
    var sep := "";
    for i := 0 to |entries|
      invariant r == Join(PrefixAll(env, entries[..i]), ";")
      invariant sep == (if i == 0 then "" else ";")
    {
      PrefixAllSnoc(env, entries, i);
      ghost var goal := r + sep + PrefixItem(env, entries[i]);
      r := r + sep;
      sep := ";";
      if !env.fileIsFullPath(entries[i]) && !Contains(entries[i], ImportPrefix) {
        r := r + ImportPrefixDir;
      }
      r := r + entries[i];
      assert r == goal;
    }
    assert entries[..|entries|] == entries;
  }

  /**
    The value `PopulateIncludeDirectoriesInterface` preprocesses: the
    target's own `INTERFACE_INCLUDE_DIRECTORIES` when set, then a `;`, then
    the `INCLUDES DESTINATION` entries after `prefixItems`.
   */
  function IncludeList(env: Env, input: Option<string>, exportDirs: string): (r: string)
    ensures input.None? ==> r == Join(PrefixAll(env, env.split(exportDirs)), ";")
    ensures input.Some? ==> r == input.value + ";" + Join(PrefixAll(env, env.split(exportDirs)), ";")
  {
    (if input.Some? then input.value else "") + (if input.Some? then ";" else "") + Join(PrefixAll(env, env.split(exportDirs)), ";")
  }

  /** `s` holds no `;`. */
  predicate NoSemicolon(s: string)
  {
    forall i :: 0 <= i < |s| ==> s[i] != ';'
  }

  lemma {:induction false} NoSemicolonCount(s: string)
    requires NoSemicolon(s)
    ensures CountChar(s, ';') == 0
    decreases |s|
  {
    if s != [] {
      NoSemicolonCount(s[1..]);
    }
  }

  /**
    `prefixItems` keeps the number of entries: when no entry holds a `;`,
    the joined list has one `;` fewer than it has entries, as the input had.
   */
  lemma PrefixItemsCount(env: Env, entries: seq<string>)
    requires entries != []
    requires forall i :: 0 <= i < |entries| ==> NoSemicolon(entries[i])
    ensures CountChar(Join(PrefixAll(env, entries), ";"), ';') == |entries| - 1
  {
    var r := PrefixAll(env, entries);
    forall i | 0 <= i < |r|
      ensures CountChar(r[i], ';') == 0
    {
      assert NoSemicolon(ImportPrefixDir);
      assert NoSemicolon(r[i]) by {
        if r[i] != entries[i] {
          assert r[i] == ImportPrefixDir + entries[i];
        }
      }
      NoSemicolonCount(r[i]);
    }
    JoinItemCount(r);
  }

  /** The file-local `isSubDirectory(a, b)`: `a` is `b` or lies below it. */
  predicate IsSubDirectory(env: Env, a: string, b: string)
  {
    env.comparePath(a, b) || env.isSubDirectory(a, b)
  }

  /** A CMP0041 setting under which a generator expression inside an include entry is an error. */
  predicate RejectsGenex(p: PolicyStatus)
  {
    p == NEW || p == REQUIRED_IF_USED || p == REQUIRED_ALWAYS
  }

  /** What vetting one entry contributes: whether it sets `hadFatalError`, and the severities of the messages it issues. */
  datatype Verdict = Verdict(fatal: bool, msgs: seq<Severity>)

  /**
    The path diagnostics for entry `li`, each issued with severity `sev`:
    none for an entry under `${_IMPORT_PREFIX}`; one for a relative path;
    then, unless the entry lies in an install prefix that itself lies in the
    build directory, one for an entry in the build directory and, in an
    out-of-source build, one for an entry in the source directory.
   */
  function PathDiagnostics(env: Env, li: string, sev: Severity): seq<Severity>
  {
    if HasPrefix(li, ImportPrefix) then []
    else
      var relative := if !env.fileIsFullPath(li) then [sev] else [];
      if IsSubDirectory(env, li, env.installPrefix) && IsSubDirectory(env, env.installPrefix, env.homeOutputDirectory) then relative
      else
        relative
        + (if IsSubDirectory(env, li, env.homeOutputDirectory) then [sev] else [])
        + (if env.homeDirectory != env.homeOutputDirectory && IsSubDirectory(env, li, env.homeDirectory) then [sev] else [])
  }

  /**
    The verdict on one entry: an entry that starts with a generator
    expression is skipped, and so is one that holds a generator expression
    under CMP0041 OLD; a generator expression elsewhere under WARN turns
    the diagnostics into warnings, and under NEW or REQUIRED_* is a fatal
    error. Entries without a generator expression are diagnosed with
    fatal severity but never set `hadFatalError`.
   */
  function CheckItem(env: Env, target: Target, li: string): (v: Verdict)
    ensures v.fatal <==> env.findGenex(li).Some? && env.findGenex(li).value != 0 && RejectsGenex(target.cmp0041)
    ensures env.findGenex(li) == Some(0) ==> v.msgs == []
    ensures env.findGenex(li).Some? && target.cmp0041 == OLD ==> v.msgs == []
    ensures HasPrefix(li, ImportPrefix) ==> v.msgs == []
  {
    var genexPos := env.findGenex(li);
    if genexPos == Some(0) then Verdict(false, [])
    else if genexPos.Some? && target.cmp0041 == OLD then Verdict(false, [])
    else
      var sev := if genexPos.Some? && target.cmp0041 == WARN then Warning else FatalError;
      Verdict(genexPos.Some? && RejectsGenex(target.cmp0041), PathDiagnostics(env, li, sev))
  }

  /**
    When an entry that is vetted at all is diagnosed, and with which
    severity: every message has the severity `CheckItem` picks; a relative
    entry is always reported; an entry in the build directory, and in an
    out-of-source build one in the source directory, is reported unless it
    lies in an install prefix inside the build directory, which leaves only
    the relative-path message; a full path in neither directory gets none.
   */
  lemma CheckItemDiagnostics(env: Env, target: Target, li: string)
    requires env.findGenex(li) != Some(0)
    requires !(env.findGenex(li).Some? && target.cmp0041 == OLD)
    requires !HasPrefix(li, ImportPrefix)
    ensures var sev := if env.findGenex(li).Some? && target.cmp0041 == WARN then Warning else FatalError;
            var v := CheckItem(env, target, li);
            var installed := IsSubDirectory(env, li, env.installPrefix) && IsSubDirectory(env, env.installPrefix, env.homeOutputDirectory);
            var inBuild := IsSubDirectory(env, li, env.homeOutputDirectory);
            var inSource := env.homeDirectory != env.homeOutputDirectory && IsSubDirectory(env, li, env.homeDirectory);
            && (forall i :: 0 <= i < |v.msgs| ==> v.msgs[i] == sev)
            && (!env.fileIsFullPath(li) ==> sev in v.msgs)
            && (inBuild && !installed ==> sev in v.msgs)
            && (inSource && !installed ==> sev in v.msgs)
            && (installed ==> v.msgs == (if env.fileIsFullPath(li) then [] else [sev]))
            && (env.fileIsFullPath(li) && !inBuild && !inSource ==> v.msgs == [])
  {
  }

  /** The verdicts on `parts`, combined in order: any fatal entry makes the whole fatal, and the messages follow one another. */
  function CheckItems(env: Env, target: Target, parts: seq<string>): Verdict
  {
    if parts == [] then Verdict(false, [])
    else
      var v := CheckItems(env, target, parts[..|parts| - 1]);
      var w := CheckItem(env, target, parts[|parts| - 1]);
      Verdict(v.fatal || w.fatal, v.msgs + w.msgs)
  }

  /**
    The list is rejected exactly when some entry holds a generator
    expression at a nonzero position while CMP0041 is NEW or REQUIRED_*.
   */
  lemma {:induction false} CheckItemsFatal(env: Env, target: Target, parts: seq<string>)
    ensures CheckItems(env, target, parts).fatal
            <==> RejectsGenex(target.cmp0041)
                 && exists i :: 0 <= i < |parts| && env.findGenex(parts[i]).Some? && env.findGenex(parts[i]).value != 0
    decreases |parts|
  {
    if parts != [] {
      var front := parts[..|parts| - 1];
      CheckItemsFatal(env, target, front);
      if RejectsGenex(target.cmp0041) && CheckItems(env, target, parts).fatal {
        if CheckItems(env, target, front).fatal {
          var i :| 0 <= i < |front| && env.findGenex(front[i]).Some? && env.findGenex(front[i]).value != 0;
          assert parts[i] == front[i];
        } else {
          assert parts[|parts| - 1] == parts[|parts| - 1];
        }
      }
      if RejectsGenex(target.cmp0041) && !CheckItems(env, target, parts).fatal {
        forall i | 0 <= i < |parts|
          ensures !(env.findGenex(parts[i]).Some? && env.findGenex(parts[i]).value != 0)
        {
          if i < |front| {
            assert parts[i] == front[i];
          }
        }
      }
    }
  }

  /** Vetting one more entry combines its verdict with the verdicts so far. */
  lemma {:induction false} CheckItemsSnoc(env: Env, target: Target, parts: seq<string>, i: nat)
    requires i < |parts|
    ensures CheckItems(env, target, parts[..i + 1])
            == Verdict(CheckItems(env, target, parts[..i]).fatal || CheckItem(env, target, parts[i]).fatal,
                       CheckItems(env, target, parts[..i]).msgs + CheckItem(env, target, parts[i]).msgs)
  {
    assert parts[..i + 1][..i] == parts[..i];
  }

  /**
    The body of the loop of `checkInterfaceDirs` for one entry `li`: whether
    it sets `hadFatalError`, and the messages it issues.
   */
  method VetItem(env: Env, target: Target, li: string) returns (fatal: bool, msgs: seq<Severity>)
    ensures Verdict(fatal, msgs) == CheckItem(env, target, li)
  {
    var installDir := env.installPrefix;
    var topSourceDir := env.homeDirectory;
    var topBinaryDir := env.homeOutputDirectory;
    var inSourceBuild := topSourceDir == topBinaryDir;
    fatal, msgs := false, [];
    var genexPos := env.findGenex(li);
    if genexPos == Some(0) {
      return;
    }
    var messageType := FatalError;
    if genexPos.Some? {
      match target.cmp0041
      case WARN =>
        messageType := Warning;
      case OLD =>
        return;
      case _ =>
        fatal := true;
    }
    if HasPrefix(li, ImportPrefix) {
      return;
    }
    if !env.fileIsFullPath(li) {
      msgs := msgs + [messageType];
    }
    if IsSubDirectory(env, li, installDir) && IsSubDirectory(env, installDir, topBinaryDir) {
      return;
    }
    if IsSubDirectory(env, li, topBinaryDir) {
      msgs := msgs + [messageType];
    }
    if !inSourceBuild {
      if IsSubDirectory(env, li, topSourceDir) {
        msgs := msgs + [messageType];
      }
    }
  }

  /**
    `checkInterfaceDirs(prepro, target)`: vets every entry of the split
    list, issuing the path diagnostics, and answers whether no entry was a
    fatal use of a generator expression.
   */
  method CheckInterfaceDirs(env: Env, prepro: string, target: Target) returns (ok: bool, msgs: seq<Severity>)
    ensures ok == !CheckItems(env, target, env.split(prepro)).fatal
    ensures msgs == CheckItems(env, target, env.split(prepro)).msgs
  {
    var parts := env.split(prepro);
    var hadFatalError := false;
    msgs := [];
    for i := 0 to |parts|
      invariant hadFatalError == CheckItems(env, target, parts[..i]).fatal
      invariant msgs == CheckItems(env, target, parts[..i]).msgs
    {
      CheckItemsSnoc(env, target, parts, i);
      var fatal, itemMsgs := VetItem(env, target, parts[i]);
      hadFatalError := hadFatalError || fatal;
      msgs := msgs + itemMsgs;
    }
    ok := !hadFatalError;
    assert parts[..|parts|] == parts;
  }
}
