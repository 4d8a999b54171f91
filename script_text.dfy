/**
  The CMake script text the export generator writes for one target: the
  `set_target_properties` blocks, the `add_*` statement that creates the
  imported target, the guard that checks targets from other export sets,
  and the per-target list of files to check. The stream is modelled by the
  string written to it.
 */
module ScriptText {
  import opened Text
  import opened Ordering
  import opened BuildModel
  import opened ImportProperties

  // ---------------------------------------------------------------------
  // Property blocks

  /** One `  KEY "VALUE"` line of a `set_target_properties` block. */
  function PropertyLine(key: string, value: string): string
  {
    "  " + key + " \"" + value + "\"\n"
  }

  /** The lines for the properties `keys`, in that order. */
  function PropertyLines(m: ImportPropertyMap, keys: seq<string>): string
    requires forall k :: k in keys ==> k in m
  {
    if keys == [] then ""
    else PropertyLines(m, keys[..|keys| - 1]) + PropertyLine(keys[|keys| - 1], m[keys[|keys| - 1]])
  }

  /** One more key adds its line at the end. */
  lemma PropertyLinesSnoc(m: ImportPropertyMap, keys: seq<string>, k: string)
    requires forall x :: x in keys ==> x in m
    requires k in m
    ensures PropertyLines(m, keys + [k]) == PropertyLines(m, keys) + PropertyLine(k, m[k])
  {
    assert (keys + [k])[..|keys|] == keys;
  }

  /** The lines of two runs of keys are the lines of the first followed by those of the second. */
  lemma {:induction false} PropertyLinesAppend(m: ImportPropertyMap, a: seq<string>, b: seq<string>)
    requires forall k :: k in a ==> k in m
    requires forall k :: k in b ==> k in m
    ensures PropertyLines(m, a + b) == PropertyLines(m, a) + PropertyLines(m, b)
    decreases |b|
  {
    if b == [] {
      assert a + b == a;
    } else {
      var front := b[..|b| - 1];
      PropertyLinesAppend(m, a, front);
      assert (a + b)[..|a + b| - 1] == a + front;
      assert (a + b)[|a + b| - 1] == b[|b| - 1];
    }
  }

  /** The lines for every property of `m`, in the map's iteration order. */
  ghost function PropertyBlock(m: ImportPropertyMap): string
  {
    SortedKeysSpec(m.Keys);
    PropertyLines(m, SortedKeys(m.Keys))
  }

  /** The lines of `keys` around position `i`. */
  lemma PropertyLinesAt(m: ImportPropertyMap, keys: seq<string>, i: nat)
    requires forall x :: x in keys ==> x in m
    requires i < |keys|
    ensures PropertyLines(m, keys) == PropertyLines(m, keys[..i]) + PropertyLine(keys[i], m[keys[i]]) + PropertyLines(m, keys[i + 1..])
  {
    assert keys == (keys[..i] + [keys[i]]) + keys[i + 1..];
    PropertyLinesAppend(m, keys[..i] + [keys[i]], keys[i + 1..]);
    PropertyLinesSnoc(m, keys[..i], keys[i]);
  }

  /** The keys before position `i` of a sorted sequence are smaller than the key there, those after it greater. */
  lemma SortedAround(ks: seq<string>, i: nat)
    requires i < |ks|
    requires forall p, q :: 0 <= p < q < |ks| ==> Less(ks[p], ks[q])
    ensures forall x :: x in ks[..i] ==> Less(x, ks[i])
    ensures forall x :: x in ks[i + 1..] ==> Less(ks[i], x)
  {
    forall x | x in ks[..i]
      ensures Less(x, ks[i])
    {
      var j :| 0 <= j < i && ks[..i][j] == x;
      assert ks[j] == x;
    }
    forall x | x in ks[i + 1..]
      ensures Less(ks[i], x)
    {
      var j :| 0 <= j < |ks| - i - 1 && ks[i + 1..][j] == x;
      assert ks[i + 1 + j] == x;
    }
  }

  /**
    The block of `m` is the lines of the keys `before`, all smaller than
    `k`, then the line of `k`, then the lines of the keys `after`, all
    greater than `k`; together they are every property of `m`.
   */
  ghost predicate LineBetween(m: ImportPropertyMap, k: string, before: seq<string>, after: seq<string>)
    requires k in m
  {
    && (forall x :: x in before ==> x in m && Less(x, k))
    && (forall x :: x in after ==> x in m && Less(k, x))
    && |before| + 1 + |after| == |m|
    && PropertyBlock(m) == PropertyLines(m, before) + PropertyLine(k, m[k]) + PropertyLines(m, after)
  }

  /**
    Every property of `m` has its line in the block, after the lines of
    all smaller keys and before the lines of all greater ones, and no
    other property has a line in between.
   */
  lemma PropertyBlockLine(m: ImportPropertyMap, k: string)
    requires k in m
    ensures exists before: seq<string>, after: seq<string> :: LineBetween(m, k, before, after)
  {
    SortedKeysSpec(m.Keys);
    var ks := SortedKeys(m.Keys);
    var i :| 0 <= i < |ks| && ks[i] == k;
    var before, after := ks[..i], ks[i + 1..];
    SortedAround(ks, i);
    PropertyLinesAt(m, ks, i);
    assert forall x :: x in before ==> x in ks;
    assert forall x :: x in after ==> x in ks;
    assert |before| + 1 + |after| == |ks|;
    assert PropertyBlock(m) == PropertyLines(m, before) + PropertyLine(k, m[k]) + PropertyLines(m, after);
    LineBetweenWitness(m, k, before, after);
  }

  /** A particular split is a witness. */
  lemma LineBetweenWitness(m: ImportPropertyMap, k: string, before: seq<string>, after: seq<string>)
    requires k in m
    requires LineBetween(m, k, before, after)
    ensures exists b: seq<string>, a: seq<string> :: LineBetween(m, k, b, a)
  {
  }

  /**
    The text of `GenerateInterfaceProperties` for the imported target
    `name`: nothing for an empty map, else one `set_target_properties`
    block listing every property.
   */
  ghost function InterfacePropertiesCode(name: string, m: ImportPropertyMap): (text: string)
    ensures text == [] <==> |m| == 0
  {
    if |m| == 0 then ""
    else "set_target_properties(" + name + " PROPERTIES\n" + PropertyBlock(m) + ")\n\n"
  }

  /**
    The text of `GenerateImportPropertyCode`: a comment naming the target
    and the configuration, the `IMPORTED_CONFIGURATIONS` entry (the same
    label the property suffix carries), and the properties block.
   */
  ghost function ImportPropertyCode(name: string, config: string, m: ImportPropertyMap): string
  {
    "# Import target \"" + name + "\" for configuration \"" + config + "\"\n"
    + "set_property(TARGET " + name + " APPEND PROPERTY IMPORTED_CONFIGURATIONS " + ConfigLabel(config) + ")\n"
    + "set_target_properties(" + name + " PROPERTIES\n"
    + PropertyBlock(m)
    + "  )\n\n"
  }

  // ---------------------------------------------------------------------
  // Imported target creation

  /** The library type keyword `add_library` is given for `kind`; empty for the others. */
  function LibraryKeyword(kind: TargetKind): (word: string)
    ensures word == [] <==> kind == Executable || kind == OtherKind
  {
    match kind
    case StaticLibrary => "STATIC"
    case SharedLibrary => "SHARED"
    case ModuleLibrary => "MODULE"
    case UnknownLibrary => "UNKNOWN"
    case InterfaceLibrary => "INTERFACE"
    case _ => ""
  }

  /**
    The statement that creates the imported target `name` of kind `kind`;
    nothing for the kinds that are never exported.
   */
  function AddCommand(kind: TargetKind, name: string): (cmd: string)
    ensures cmd == [] <==> kind == OtherKind
  {
    if kind == Executable then "add_executable(" + name + " IMPORTED)\n"
    else if kind == OtherKind then ""
    else "add_library(" + name + " " + (LibraryKeyword(kind) + " IMPORTED)\n")
  }

  /** Cancelling a common prefix. */
  lemma PrefixCancel(x: string, s: string, t: string)
    requires x + s == x + t
    ensures s == t
  {
    assert s == (x + s)[|x|..];
    assert t == (x + t)[|x|..];
  }

  /** Strings that differ at a position both have differ. */
  lemma DiffersAtIndex(s: string, t: string, i: nat)
    requires i < |s| && i < |t| && s[i] != t[i]
    ensures s != t
  {
  }

  /** Different library kinds have different type keywords, whatever follows them. */
  lemma LibraryKeywordsDistinct(k1: TargetKind, k2: TargetKind, rest: string)
    requires k1 != k2
    requires LibraryKeyword(k1) != [] && LibraryKeyword(k2) != []
    ensures LibraryKeyword(k1) + rest != LibraryKeyword(k2) + rest
  {
    var s := LibraryKeyword(k1) + rest;
    var t := LibraryKeyword(k2) + rest;
    if (k1 == SharedLibrary && k2 == StaticLibrary) || (k1 == StaticLibrary && k2 == SharedLibrary) {
      DiffersAtIndex(s, t, 1);
    } else {
      DiffersAtIndex(s, t, 0);
    }
  }

  /** An executable and a library are created by different commands. */
  lemma ExecutableNotLibrary(k: TargetKind, name: string)
    requires k != Executable && k != OtherKind
    ensures AddCommand(Executable, name) != AddCommand(k, name)
  {
    DiffersAtIndex(AddCommand(Executable, name), AddCommand(k, name), 4);
  }

  /** Two kinds of library are created with different type keywords. */
  lemma LibrariesDiffer(k1: TargetKind, k2: TargetKind, name: string)
    requires k1 != k2
    requires LibraryKeyword(k1) != [] && LibraryKeyword(k2) != []
    ensures AddCommand(k1, name) != AddCommand(k2, name)
  {
    var x := "add_library(" + name + " ";
    var rest := " IMPORTED)\n";
    assert AddCommand(k1, name) == x + (LibraryKeyword(k1) + rest);
    assert AddCommand(k2, name) == x + (LibraryKeyword(k2) + rest);
    LibraryKeywordsDistinct(k1, k2, rest);
    if AddCommand(k1, name) == AddCommand(k2, name) {
      PrefixCancel(x, LibraryKeyword(k1) + rest, LibraryKeyword(k2) + rest);
    }
  }

  /** Different target kinds are created by different statements: the kind can be read back from the script. */
  lemma AddCommandInjective(k1: TargetKind, k2: TargetKind, name: string)
    ensures k1 != k2 ==> AddCommand(k1, name) != AddCommand(k2, name)
  {
    if k1 != k2 && k1 != OtherKind && k2 != OtherKind {
      if k1 == Executable {
        ExecutableNotLibrary(k2, name);
      } else if k2 == Executable {
        ExecutableNotLibrary(k1, name);
      } else {
        LibrariesDiffer(k1, k2, name);
      }
    }
  }

  /** A `set_property(TARGET name PROPERTY p 1)` line when `on`. */
  function FlagLine(on: bool, name: string, property: string): (line: string)
    ensures line == [] <==> !on
  {
    if on then "set_property(TARGET " + name + " PROPERTY " + property + " 1)\n" else ""
  }

  /**
    The text of `GenerateImportTargetCode` for target `t` imported as
    `name`: a comment, the creating statement, and a flag line for each of
    an executable with exports, a framework, an application bundle and a
    CF bundle.
   */
  function ImportTargetCode(t: Target, name: string): string
  {
    "# Create imported target " + name + "\n"
    + AddCommand(t.kind, name)
    + FlagLine(t.executableWithExports, name, "ENABLE_EXPORTS")
    + FlagLine(t.frameworkOnApple, name, "FRAMEWORK")
    + FlagLine(t.appBundleOnApple, name, "MACOSX_BUNDLE")
    + FlagLine(t.cfBundleOnApple, name, "BUNDLE")
    + "\n"
  }

  // ---------------------------------------------------------------------
  // Targets from other export sets

  /** The comment written when the file depends on no target of another export set. */
  const NoOtherExportSets :=
    "# This file does not depend on other imported targets which have\n"
    + "# been exported from the same project but in a separate export set.\n\n"

  /** The start of the check for targets of other export sets, up to its `foreach` list. */
  const MissingCheckHead :=
    "# Make sure the targets which have been exported in some other \n"
    + "# export set exist.\n"
    + "unset(${CMAKE_FIND_PACKAGE_NAME}_NOT_FOUND_MESSAGE_targets)\n"
    + "foreach(_target "

  /** The rest of the check, after its `foreach` list. */
  const MissingCheckTail :=
    ")\n"
    + "  if(NOT TARGET \"${_target}\" )\n"
    + "    set(${CMAKE_FIND_PACKAGE_NAME}_NOT_FOUND_MESSAGE_targets \"${${CMAKE_FIND_PACKAGE_NAME}_NOT_FOUND_MESSAGE_targets} ${_target}\")\n"
    + "  endif()\n"
    + "endforeach()\n"
    + "\n"
    + "if(DEFINED ${CMAKE_FIND_PACKAGE_NAME}_NOT_FOUND_MESSAGE_targets)\n"
    + "  if(CMAKE_FIND_PACKAGE_NAME)\n"
    + "    set( ${CMAKE_FIND_PACKAGE_NAME}_FOUND FALSE)\n"
    + "    set( ${CMAKE_FIND_PACKAGE_NAME}_NOT_FOUND_MESSAGE \"The following imported targets are referenced, but are missing: ${${CMAKE_FIND_PACKAGE_NAME}_NOT_FOUND_MESSAGE_targets}\")\n"
    + "  else()\n"
    + "    message(FATAL_ERROR \"The following imported targets are referenced, but are missing: ${${CMAKE_FIND_PACKAGE_NAME}_NOT_FOUND_MESSAGE_targets}\")\n"
    + "  endif()\n"
    + "endif()\n"
    + "unset(${CMAKE_FIND_PACKAGE_NAME}_NOT_FOUND_MESSAGE_targets)\n"
    + "\n"

  /** `s` without repetitions, each element kept where it first occurs. */
  function Dedup(s: seq<string>): seq<string>
  {
    if s == [] then []
    else if s[|s| - 1] in s[..|s| - 1] then Dedup(s[..|s| - 1])
    else Dedup(s[..|s| - 1]) + [s[|s| - 1]]
  }

  /** The position of the first occurrence of `x` in `s`. */
  function FirstIndex(s: seq<string>, x: string): (i: nat)
    requires x in s
    ensures i < |s| && s[i] == x
    ensures forall j :: 0 <= j < i ==> s[j] != x
  {
    var front := s[..|s| - 1];
    if x in front then FirstIndex(front, x)
    else assert s == front + [s[|s| - 1]]; |s| - 1
  }

  /** Removing repetitions keeps exactly the elements of `s`. */
  lemma {:induction false} DedupElements(s: seq<string>)
    ensures forall x :: x in Dedup(s) <==> x in s
  {
    if s != [] {
      var front := s[..|s| - 1];
      DedupElements(front);
      assert s == front + [s[|s| - 1]];
    }
  }

  /** No element is emitted twice. */
  lemma {:induction false} DedupDistinct(s: seq<string>)
    ensures forall i, j :: 0 <= i < j < |Dedup(s)| ==> Dedup(s)[i] != Dedup(s)[j]
  {
    if s != [] {
      var front := s[..|s| - 1];
      DedupDistinct(front);
      DedupElements(front);
    }
  }

  /** The elements come in the order of their first occurrences in `s`. */
  lemma {:induction false} DedupOrder(s: seq<string>)
    ensures forall x :: x in Dedup(s) ==> x in s
    ensures forall i, j :: 0 <= i < j < |Dedup(s)| ==> FirstIndex(s, Dedup(s)[i]) < FirstIndex(s, Dedup(s)[j])
  {
    DedupElements(s);
    if s != [] {
      var front := s[..|s| - 1];
      var d := Dedup(s);
      DedupElements(front);
      DedupOrder(front);
      forall x | x in front
        ensures FirstIndex(s, x) == FirstIndex(front, x)
      {
        FirstIndexFront(s, x);
      }
      forall i, j | 0 <= i < j < |d|
        ensures FirstIndex(s, d[i]) < FirstIndex(s, d[j])
      {
        assert d[i] in Dedup(front);
        if j < |Dedup(front)| {
          assert d[j] == Dedup(front)[j] && d[i] == Dedup(front)[i];
        } else {
          assert d[j] == s[|s| - 1] && s[|s| - 1] !in front;
        }
      }
    }
  }

  /** An element of the front of `s` first occurs where it first occurs in that front. */
  lemma FirstIndexFront(s: seq<string>, x: string)
    requires s != [] && x in s[..|s| - 1]
    ensures FirstIndex(s, x) == FirstIndex(s[..|s| - 1], x)
  {
  }

  /** The quoted, space-separated names of the `foreach` list. */
  function QuotedItems(names: seq<string>): string
  {
    if names == [] then ""
    else QuotedItems(names[..|names| - 1]) + "\"" + names[|names| - 1] + "\" "
  }

  /** Looking at one more element of `s`: it is kept exactly when it did not occur before. */
  lemma DedupStep(s: seq<string>, i: nat)
    requires i < |s|
    ensures s[..i + 1][..i] == s[..i] && s[..i + 1][i] == s[i]
    ensures Dedup(s[..i + 1]) == if s[i] in s[..i] then Dedup(s[..i]) else Dedup(s[..i]) + [s[i]]
    ensures forall x :: x in s[..i + 1] <==> x in s[..i] || x == s[i]
  {
    assert s[..i + 1] == s[..i] + [s[i]];
  }

  /** One more name adds its quoted entry at the end. */
  lemma QuotedItemsSnoc(names: seq<string>, x: string)
    ensures QuotedItems(names + [x]) == QuotedItems(names) + "\"" + x + "\" "
  {
    assert (names + [x])[..|names|] == names;
  }

  /**
    The text of `GenerateMissingTargetsCheckCode`: the comment alone when
    no target of another export set is referenced; otherwise the check,
    listing each referenced target once, in first-occurrence order.
   */
  function MissingTargetsCheckCode(missing: seq<string>): string
  {
    if missing == [] then NoOtherExportSets
    else MissingCheckHead + QuotedItems(Dedup(missing)) + MissingCheckTail
  }

  // ---------------------------------------------------------------------
  // Imported file checks

  /** The values of the locations in `locs` that `m` has, in that order; the others are skipped. */
  function PresentValues(m: ImportPropertyMap, locs: seq<string>): seq<string>
  {
    if locs == [] then []
    else
      var last := locs[|locs| - 1];
      PresentValues(m, locs[..|locs| - 1]) + (if last in m then [m[last]] else [])
  }

  /** One more location adds its value when `m` has it. */
  lemma PresentValuesSnoc(m: ImportPropertyMap, locs: seq<string>, k: string)
    ensures PresentValues(m, locs + [k]) == PresentValues(m, locs) + (if k in m then [m[k]] else [])
  {
    assert (locs + [k])[..|locs|] == locs;
  }

  /** A listed file is the value of some location `m` has, and every such value is listed. */
  lemma {:induction false} PresentValuesElements(m: ImportPropertyMap, locs: seq<string>)
    ensures forall l :: l in locs && l in m ==> m[l] in PresentValues(m, locs)
    ensures forall v :: v in PresentValues(m, locs) ==> exists l :: l in locs && l in m && m[l] == v
    decreases |locs|
  {
    if locs != [] {
      var front := locs[..|locs| - 1];
      PresentValuesElements(m, front);
      assert locs == front + [locs[|locs| - 1]];
    }
  }

  /** The elements of `s`, collected from the back as the values are. */
  function Elements(s: seq<string>): (r: set<string>)
    ensures forall x :: x in r <==> x in s
  {
    if s == [] then {}
    else
      assert s == s[..|s| - 1] + [s[|s| - 1]];
      Elements(s[..|s| - 1]) + {s[|s| - 1]}
  }

  /** A new location adds one to the locations `m` has exactly when `m` has it. */
  lemma PresentSnoc(m: ImportPropertyMap, locs: seq<string>, last: string)
    requires last !in locs
    ensures |Elements(locs + [last]) * m.Keys| == |Elements(locs) * m.Keys| + (if last in m then 1 else 0)
  {
    assert (locs + [last])[..|locs|] == locs;
    assert Elements(locs + [last]) == Elements(locs) + {last};
    var a := Elements(locs) * m.Keys;
    assert last !in a;
    if last in m {
      assert Elements(locs + [last]) * m.Keys == a + {last};
    } else {
      assert Elements(locs + [last]) * m.Keys == a;
    }
  }

  /** Distinct locations give one listed file per location `m` has. */
  lemma {:induction false} PresentValuesCount(m: ImportPropertyMap, locs: seq<string>)
    requires forall i, j :: 0 <= i < j < |locs| ==> locs[i] != locs[j]
    ensures |PresentValues(m, locs)| == |Elements(locs) * m.Keys|
    decreases |locs|
  {
    if locs != [] {
      var front := locs[..|locs| - 1];
      var last := locs[|locs| - 1];
      assert locs == front + [last];
      PresentValuesCount(m, front);
      PresentValuesSnoc(m, front, last);
      PresentSnoc(m, front, last);
    }
  }

  /**
    The text of `GenerateImportedFileChecksCode` for the imported target
    `name`: the target joins the list of targets to check, with the values
    of the imported-location properties `m` has among `locations`, in
    location order.
   */
  ghost function ImportedFileChecksCode(name: string, m: ImportPropertyMap, locations: set<string>): string
  {
    "list(APPEND _IMPORT_CHECK_TARGETS " + name + " )\n"
    + "list(APPEND _IMPORT_CHECK_FILES_FOR_" + name + " "
    + QuotedItems(PresentValues(m, SortedKeys(locations)))
    + ")\n\n"
  }

  /**
    The files listed for a target are exactly the values of its imported
    locations that have a property, one entry per such location.
   */
  lemma ImportedFilesListed(m: ImportPropertyMap, locations: set<string>)
    ensures |PresentValues(m, SortedKeys(locations))| == |locations * m.Keys|
    ensures forall l :: l in locations && l in m ==> m[l] in PresentValues(m, SortedKeys(locations))
    ensures forall v :: v in PresentValues(m, SortedKeys(locations)) ==> exists l :: l in locations && l in m && m[l] == v
  {
    var ks := SortedKeys(locations);
    SortedKeysSpec(locations);
    forall i, j | 0 <= i < j < |ks|
      ensures ks[i] != ks[j]
    {
      LessIrreflexive(ks[i]);
    }
    PresentValuesCount(m, ks);
    assert Elements(ks) == locations;
    PresentValuesElements(m, ks);
  }

  // ---------------------------------------------------------------------
  // Writing in iteration order

  /** Append the lines of `m` one property at a time, least key first, as iterating a `std::map` does. */
  method WritePropertyLines(m: ImportPropertyMap) returns (text: string)
    ensures text == PropertyBlock(m)
  {
    text := "";
    var rest := m.Keys;
    ghost var done: seq<string> := [];
    while rest != {}
      invariant rest <= m.Keys
      invariant forall k :: k in done ==> k in m
      invariant SortedKeys(m.Keys) == done + SortedKeys(rest)
      invariant text == PropertyLines(m, done)
      decreases |rest|
    {
      LeastExists(rest);
      var k :| IsLeast(k, rest);
      SortedKeysStep(m.Keys, done, rest, k);
      PropertyLinesSnoc(m, done, k);
      text := text + PropertyLine(k, m[k]);
      done := done + [k];
      rest := rest - {k};
    }
    assert SortedKeys(rest) == [] && done + [] == done;
  }

  /** Append the quoted values of the locations `m` has, least location first, as iterating a `std::set` does. */
  method WriteFileItems(m: ImportPropertyMap, locations: set<string>) returns (text: string)
    ensures text == QuotedItems(PresentValues(m, SortedKeys(locations)))
  {
    text := "";
    var rest := locations;
    ghost var done: seq<string> := [];
    while rest != {}
      invariant rest <= locations
      invariant SortedKeys(locations) == done + SortedKeys(rest)
      invariant text == QuotedItems(PresentValues(m, done))
      decreases |rest|
    {
      LeastExists(rest);
      var k :| IsLeast(k, rest);
      SortedKeysStep(locations, done, rest, k);
      PresentValuesSnoc(m, done, k);
      if k in m {
        QuotedItemsSnoc(PresentValues(m, done), m[k]);
        text := text + "\"" + m[k] + "\" ";
      } else {
        assert PresentValues(m, done) + [] == PresentValues(m, done);
      }
      done := done + [k];
      rest := rest - {k};
    }
    assert SortedKeys(rest) == [] && done + [] == done;
  }
}
