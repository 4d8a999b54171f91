# Export-file generator core, modelled in Dafny

This project models the core of CMake's `cmExportFileGenerator`. That core
writes the `<Name>Targets.cmake` scripts that `install(EXPORT)` and
`export()` produce. For each exported target the generator fills an
`ImportPropertyMap`, a map from property name to value, and appends the
names of dependees outside the export set to a missing-targets list. It
does this in four steps:

- It copies the target's interface properties: plain, link libraries,
  include directories, and the compatible-interface names.
- It rewrites every target reference in their values. Target references
  are bare link items and the name fields of `$<TARGET_PROPERTY:name,...>`
  and `$<TARGET_NAME:name>`. Each reference becomes the namespaced export
  name.
- It sets the per-configuration properties. These are the soname, the
  link interface, the languages, the dependent libraries and the
  multiplicity, under the configuration suffix.
- It writes the CMake text that creates the imported target, sets its
  properties, checks for missing targets and lists the files to check.

The generator is the class `Generator.ExportFileGenerator`. Its fields are
the namespace, the set of exported targets, the `ExportOld` flag and the
environment. The environment (`BuildModel.Env`) holds the build
description and every foreign routine as functions:

- target lookup;
- the `HandleMissingTarget` and `InstallNameDir` hooks;
- link items and the link interface;
- the soname;
- `IsOn`;
- the configurations;
- the path predicates;
- list expansion;
- the generator-expression routines `Split`, `Find`, `Preprocess` and
  `Evaluate`.

The source passes the property map and the missing-targets list by
reference, and each of them is modified in place. Here each such
parameter is an input value, and a result value holds its new contents.
Each operation also returns the severities of the messages this file
issues; messages issued inside the hooks are not among them.

The two scans of `ResolveTargetsInGeneratorExpression` are `while` loops.
They use `find`, `replace` and the indices `pos` and `lastPos`. Each scan
is proved equal to a reference definition that works by recursion on the
text still to scan (`Resolver.PropertyRewrite`, `Resolver.NameRewrite`).
Each reference definition is proved to cut the input into pieces that are
kept or rewritten as the source promises.

The `$<TARGET_NAME:` scan resumes at the old index of `>` after a
replacement, as the source does at line 670. Let `k` be the number of
characters of the construct before its `>`. When the resolved name is
longer than `k` characters, the scan resumes inside the name; when it has
exactly `k` characters, right after it; when it is shorter, the scan
passes over up to `k - |name|` characters of the following text. The
reference definition reproduces this through `Resolver.SkipCount`. Every
name the namespacing gives must be inert: it contains no `$<` and does not
end in `$`. Under that condition the resumed search finds what it would
find after the name, and the loop terminates (`Resolver.InertNames`).

A construct that starts in the passed-over text is neither replaced nor
reported. `$<TARGET_NAME:a>$<TARGET_NAME:b>`, with `a` resolving to a
one-character name, keeps `$<TARGET_NAME:b>` and issues no error (see
"## Findings"). The generator's loop still models the code as written. The
intended scan, which goes on right after the name, is the module
`NameResume`: it replaces every construct it reaches. It is not
idempotent either, because a resolved name can complete an opening that
starts before it (`NameResume.StableNamesNotIdempotent`).

The configuration suffix is `_NOCONFIG` for the empty configuration, so a
configuration named `noconfig`, in any letter case, writes its properties
under the same keys (`ImportProperties.NoConfigCollides`).

`checkInterfaceDirs` is modelled as its code reads. For an item without a
generator expression, a path problem is reported with fatal severity
whatever CMP0041 says, yet `hadFatalError` stays false, so such an item
never makes the function return false (`IncludeDirs.CheckItem`,
`IncludeDirs.CheckItemDiagnostics`).

## Model

| member | source | states |
|---|---|---|
| ImportProperties.Suffix | Source/cmExportFileGenerator.cxx:124-132 | The suffix is `_` followed by the configuration upper-cased character by character, or `_NOCONFIG` for the empty configuration. |
| ImportProperties.ConfigLabel | Source/cmExportFileGenerator.cxx:124-132 | The label is never empty and has the configuration's length when the configuration is not empty. |
| ImportProperties.SuffixDistinguishes | Source/cmExportFileGenerator.cxx:124-132 | Two configurations get the same suffix exactly when they get the same label. Two non-empty configurations get the same suffix exactly when they agree after upper-casing. |
| ImportProperties.NoConfigCollides | Source/cmExportFileGenerator.cxx:124-132 | The configuration `noconfig` gets the suffix of the empty configuration, `_NOCONFIG`. |
| ImportProperties.CopyKey | Source/cmExportFileGenerator.cxx:139-149 | Copying one property sets only that key: it takes the target's value when the property is set and leaves the map unchanged otherwise. |
| ImportProperties.CopyKeys | Source/cmExportFileGenerator.cxx:139-149 | Copying a set of properties sets every key of the set that the target has to the target's value, and leaves every other key as it was. |
| ImportProperties.CopyKeysInsert | Source/cmExportFileGenerator.cxx:139-149 | Copying one more key equals copying it after the others, so copies can be made one at a time. |
| ImportProperties.CopyKeysNone | Source/cmExportFileGenerator.cxx:139-149 | Copying no key leaves the map as it was. |
| Generator.ExportFileGenerator.CopyInterfaceProperty | Source/cmExportFileGenerator.cxx:139-149 | The three-argument `PopulateInterfaceProperty` returns the map with exactly that one property copied. |
| Generator.ExportFileGenerator.PopulateInterfacePropertyAs | Source/cmExportFileGenerator.cxx:151-179 | Only `outputName` can change. If the property is unset, nothing changes. If it is set to "", the output key is set to "". If it preprocesses to "", nothing changes. Otherwise the output key holds the resolved preprocessed value, and the missing list and messages are those of the resolution. |
| Generator.ExportFileGenerator.PopulateInterfaceLinkLibrariesProperty | Source/cmExportFileGenerator.cxx:191-216 | It returns true exactly when the target is linkable, has `INTERFACE_LINK_LIBRARIES`, and that value preprocesses to a non-empty text. Then the key holds the value resolved with free-target replacement. Otherwise nothing changes. No other key changes. |
| IncludeDirs.ImportPrefixDirStarts | Source/cmExportFileGenerator.cxx:307-325 | A prefixed entry starts with, and so contains, `${_IMPORT_PREFIX}`. |
| IncludeDirs.PrefixItem | Source/cmExportFileGenerator.cxx:307-325 | An entry is prefixed with `${_IMPORT_PREFIX}/` exactly when it is relative and does not contain `${_IMPORT_PREFIX}`. Every relative result contains `${_IMPORT_PREFIX}`. |
| IncludeDirs.PrefixItemIdempotent | Source/cmExportFileGenerator.cxx:307-325 | Prefixing an entry twice gives what prefixing it once gives. |
| IncludeDirs.PrefixAll | Source/cmExportFileGenerator.cxx:307-325 | The list has as many entries as the input, and entry i is the input's entry i prefixed. |
| IncludeDirs.PrefixItems | Source/cmExportFileGenerator.cxx:307-325 | The loop's string is the split entries, each prefixed, joined with `;`. |
| IncludeDirs.PrefixItemsCount | Source/cmExportFileGenerator.cxx:307-325 | For n entries without `;`, the joined result has exactly n-1 separators, so the item count is kept. |
| IncludeDirs.CheckItem | Source/cmExportFileGenerator.cxx:244-301 | An item is fatal exactly when it has a generator expression at a nonzero position and CMP0041 is NEW or REQUIRED_*. An item that starts with a generator expression, a genex item under OLD, and an item that starts with `${_IMPORT_PREFIX}` issue no diagnostic. |
| IncludeDirs.CheckItemDiagnostics | Source/cmExportFileGenerator.cxx:249-300 | For a vetted item, every message has one severity: Warning for a generator expression under CMP0041 WARN, FatalError otherwise. A relative item is always reported. An item in the build directory, or in the source directory of an out-of-source build, is reported unless it lies in an install prefix inside the build directory. Such an installed item gets only the relative-path message, and a full path in neither directory gets none. |
| IncludeDirs.CheckItemsFatal | Source/cmExportFileGenerator.cxx:226-304 | The whole list is rejected exactly when some item holds a generator expression at a nonzero position and CMP0041 rejects it. |
| IncludeDirs.CheckItemsSnoc | Source/cmExportFileGenerator.cxx:226-304 | Checking one more item adds its verdict to those of the items before it. |
| IncludeDirs.VetItem | Source/cmExportFileGenerator.cxx:244-301 | The loop body's fatal flag and messages are those `CheckItem` defines. |
| IncludeDirs.CheckInterfaceDirs | Source/cmExportFileGenerator.cxx:226-304 | It returns true exactly when the list is not rejected. Its messages are the concatenated diagnostics of the items in order, each item's as `IncludeDirs.CheckItemDiagnostics` states. |
| IncludeDirs.IncludeList | Source/cmExportFileGenerator.cxx:375-379 | The list is the export directories, each prefixed and joined with `;`. When the target has the property, its value and a `;` come first. |
| Generator.ExportFileGenerator.PopulateIncludeDirectoriesInterface | Source/cmExportFileGenerator.cxx:328-394 | Only `INTERFACE_INCLUDE_DIRECTORIES` can change. A context-sensitive export directory is fatal and changes nothing. An unset property with no directories changes nothing, and a property set to "" with no directories stores "". Otherwise the resolved list is stored unless `checkInterfaceDirs` rejects it, and the messages are those of the resolution, then those of the check. |
| Generator.ExportFileGenerator.PopulateInterfaceProperty | Source/cmExportFileGenerator.cxx:397-406 | The five-argument form behaves as the six-argument one with the output name equal to the property name. |
| CompatibleInterface.PropertyContents | Source/cmExportFileGenerator.cxx:410-425 | Nothing is collected from an unset property. From a set property, exactly the entries of its expanded list are collected. |
| CompatibleInterface.GetPropertyContents | Source/cmExportFileGenerator.cxx:410-425 | The result is the names already held plus the property's entries. |
| CompatibleInterface.GetTargetContents | Source/cmExportFileGenerator.cxx:454-465 | The result is the names already held plus the entries of the four `COMPATIBLE_INTERFACE_*` properties. |
| CompatibleInterface.ItemsContentsIff | Source/cmExportFileGenerator.cxx:446-466 | A name is collected from the link items exactly when some item's target lists it. |
| CompatibleInterface.GetCompatibleInterfaceProperties | Source/cmExportFileGenerator.cxx:428-467 | It adds exactly the names the linked targets list for the configuration. It issues one fatal error when the linker language cannot be determined, and none otherwise. |
| CompatibleInterface.FailuresFrom | Source/cmExportFileGenerator.cxx:499-503 | The messages keep those already issued and add at most one fatal error per configuration. |
| CompatibleInterface.GatherIff | Source/cmExportFileGenerator.cxx:499-503 | A name is gathered exactly when it was already held or a target linked in one of the configurations lists it. |
| CompatibleInterface.CollectStart | Source/cmExportFileGenerator.cxx:485-503 | For a target that is not an interface library, the own names and the default configuration are collected first, then the configured ones. |
| CompatibleInterface.CollectCompatibleNames | Source/cmExportFileGenerator.cxx:483-504 | The loop collects exactly `CompatibleNames` and issues exactly `CompatibleFailures`. |
| CompatibleInterface.InterfaceLibraryOwnNames | Source/cmExportFileGenerator.cxx:485-504 | An interface library collects only its own four properties and issues no message. |
| CompatibleInterface.CompatibleCopyStart | Source/cmExportFileGenerator.cxx:474-481 | Copying the four `COMPATIBLE_INTERFACE_*` properties one after the other copies exactly those keys. |
| CompatibleInterface.InterfaceCopyStep | Source/cmExportFileGenerator.cxx:506-511 | Copying `INTERFACE_P` for one more name, whichever is visited, extends the copied key set by that key. So the result does not depend on the visiting order. |
| Generator.ExportFileGenerator.PopulateCompatibleInterfaceProperties | Source/cmExportFileGenerator.cxx:470-512 | The map gets exactly the four list properties and `INTERFACE_P` for every collected name P copied in. The messages are the failures of the collection. |
| Generator.ExportFileGenerator.PopulateNamedInterfaceProperties | Source/cmExportFileGenerator.cxx:506-511 | The loop over the names extends the copied keys by `INTERFACE_P` for every name. |
| Generator.ExportFileGenerator.GenerateInterfaceProperties | Source/cmExportFileGenerator.cxx:515-531 | The text is `ScriptText.InterfacePropertiesCode`. That is nothing for an empty map, and otherwise one `set_target_properties` block. |
| ScriptText.InterfacePropertiesCode | Source/cmExportFileGenerator.cxx:515-531 | The text is empty exactly when the map is empty. |
| ScriptText.PropertyBlockLine | Source/cmExportFileGenerator.cxx:524-528 | Every property of the map has its line `  KEY "VALUE"` in the block. All smaller keys come before it and all greater keys after it, and nothing else is in the block. |
| ScriptText.PropertyLinesAppend | Source/cmExportFileGenerator.cxx:524-528 | The lines for two key lists put together are the lines of the first, then those of the second. |
| ScriptText.WritePropertyLines | Source/cmExportFileGenerator.cxx:524-528 | The loop over the map writes exactly the block of lines in ascending key order. |
| Ordering.SortedKeysSpec | Source/cmExportFileGenerator.cxx:524-528 | The keys are listed once each, exactly those of the set, and in strictly ascending order. |
| Ordering.LessTotal | Source/cmExportFileGenerator.cxx:524-528 | The byte-wise order of `std::map` keys is total on distinct strings. |
| Ordering.LessTransitive | Source/cmExportFileGenerator.cxx:524-528 | The key order is transitive. |
| Ordering.LessIrreflexive | Source/cmExportFileGenerator.cxx:524-528 | No key is smaller than itself. |
| Ordering.LeastExists | Source/cmExportFileGenerator.cxx:524-528 | A non-empty key set has a least key. |
| Ordering.LeastUnique | Source/cmExportFileGenerator.cxx:524-528 | The least key is unique. |
| Ordering.SortedKeysFirst | Source/cmExportFileGenerator.cxx:524-528 | The key listing starts with the least key, followed by the listing of the others. |
| Namespacing.AddTargetNamespace | Source/cmExportFileGenerator.cxx:534-566 | It returns true exactly when the name is a known target. An unknown or imported target leaves the name as it is. An exported target gives `Namespace + ExportName`. Any other target is handed to `HandleMissingTarget`: its replacement is used only when non-empty, and its recorded names are appended. The missing list only grows. |
| Namespacing.NameIndependentOfMissing | Source/cmExportFileGenerator.cxx:534-566 | With `HandleMissingTarget` modelled as a function of the two targets, the name and the outcome do not depend on the missing list held before, and the list gains the same entries whatever it held. |
| Namespacing.AddTargetNamespaceIdempotent | Source/cmExportFileGenerator.cxx:534-566 | When the hook's replacements are settled, namespacing a namespaced name again gives the same name. |
| Namespacing.NamespaceAll | Source/cmExportFileGenerator.cxx:846-860 | Namespacing a list keeps its length, and the missing list only grows. |
| Namespacing.NamespaceAllNames | Source/cmExportFileGenerator.cxx:846-860 | Entry i of the result is the namespaced entry i, whatever came before it. |
| Namespacing.NamespaceAllSnoc | Source/cmExportFileGenerator.cxx:846-860 | Namespacing one more entry appends its name and its missing entries. |
| Generator.ExportFileGenerator.SetImportLinkProperty | Source/cmExportFileGenerator.cxx:829-864 | An empty entry list stores nothing. Otherwise `propName + suffix` holds the namespaced entries joined with `;`. No other key changes, and the missing list only grows. |
| FreeTargets.ResolveEntryFacts | Source/cmExportFileGenerator.cxx:587-600 | One split entry yields one resolved entry and at most one message. Without a generator expression, it yields its namespaced name and no message. |
| FreeTargets.ResolveEntriesCount | Source/cmExportFileGenerator.cxx:581-602 | The free-target loop yields exactly one item per split entry and at most one message per entry. The missing list only grows. |
| FreeTargets.ResolveEntriesPlain | Source/cmExportFileGenerator.cxx:587-592 | Item i of the result, for an entry without a generator expression, is that entry's namespaced name. |
| FreeTargets.ResolveEntriesQuiet | Source/cmExportFileGenerator.cxx:581-602 | A list with no generator expression issues no message. |
| FreeTargets.ResolveEntriesSnoc | Source/cmExportFileGenerator.cxx:581-602 | Resolving one more entry appends its item and messages. |
| FreeTargets.ResolveValueGrows | Source/cmExportFileGenerator.cxx:569-603 | Resolving a value never drops an entry of the missing list. |
| Generator.ExportFileGenerator.ResolveTargetsInGeneratorExpressions | Source/cmExportFileGenerator.cxx:569-603 | The method computes `FreeTargets.ResolveValue`: without free-target replacement, one expression resolution; with it, the split entries resolved one by one and joined with `;`. The missing list only grows. |
| Resolver.NameFieldEnd | Source/cmExportFileGenerator.cxx:621-629 | A found name field ends at a comma inside the text. |
| Resolver.NameFieldLiteral | Source/cmExportFileGenerator.cxx:621-629 | A name field that is rewritten holds no `,`, no `>` and no `$<`, and the comma is the first one after the name start. |
| Resolver.NextPropertySpec | Source/cmExportFileGenerator.cxx:617-641 | The scan stops only when no `$<TARGET_PROPERTY:` remains. A field is skipped or rewritten only right after that opening, and a field is skipped exactly when it has no comma, no `>`, a `>` before the comma, or a `$<` before the comma. |
| Resolver.PropertyRewriteSound | Source/cmExportFileGenerator.cxx:617-641 | The reference rewrite cuts the input into pieces that put back together give the input. Rewritten, they give the output. Only the text between an opening and the first comma is rewritten, into that name's namespaced form. The missing list only grows. |
| Resolver.PropertyRewriteComplete | Source/cmExportFileGenerator.cxx:617-641 | No `$<TARGET_PROPERTY:` is passed over. Every piece but the last stops at the first opening of the text from there on, and either that opening's name field is skipped for a reason of `NameFieldEnd` or its name, up to the first comma, is the rewritten field. The last piece holds no opening. |
| Resolver.FieldRewrittenAt | Source/cmExportFileGenerator.cxx:633-640 | A rewritten field is the literal name between the opening and the comma, replaced by its namespaced name. |
| Generator.ExportFileGenerator.PropertyConstruct | Source/cmExportFileGenerator.cxx:617-640 | One pass of the loop at a found opening moves the scan point forward, and the text before it and the rest give the same final outcome as before. |
| Generator.ExportFileGenerator.SkipField | Source/cmExportFileGenerator.cxx:627-632 | A skipped name field leaves the text and the missing list unchanged and goes on right after the opening. |
| Generator.ExportFileGenerator.RenameField | Source/cmExportFileGenerator.cxx:634-640 | The name field is replaced by its namespaced name, the missing list is the one namespacing returns, and the scan goes on after the comma that follows the new name. |
| Generator.ExportFileGenerator.ReplaceFound | Source/cmExportFileGenerator.cxx:636-639 | The text is the input with the name field replaced by the namespaced name, and is unchanged when no target was found. |
| Resolver.PropertyRenamed | Source/cmExportFileGenerator.cxx:634-640 | After a replacement, the text up to the comma and the rest still give the outcome of the reference rewrite. |
| Generator.ExportFileGenerator.ResolvePropertyTargets | Source/cmExportFileGenerator.cxx:617-641 | The `find`/`replace` loop on `pos` and `lastPos` computes exactly the reference rewrite `Resolver.PropertyRewrite`. |
| Resolver.NameDecision | Source/cmExportFileGenerator.cxx:646-668 | A replaced construct runs from an opening to a `>` inside the text. |
| Resolver.NameDecisionSpec | Source/cmExportFileGenerator.cxx:646-668 | A replaced construct is an opening, a literal argument free of `>` and `$<`, and `>`, and its argument names a reachable target. The scan stops without error exactly when no `$<TARGET_NAME:` remains. |
| Resolver.SkipCount | Source/cmExportFileGenerator.cxx:669-670 | The scan passes over no more text than there is after the construct. |
| Resolver.NameRewriteSound | Source/cmExportFileGenerator.cxx:646-678 | The reference scan cuts the input into pieces that put back together give the input. Rewritten, they give the output. Every replaced construct is a complete, literal, reachable `$<TARGET_NAME:name>` replaced in full by the resolved name. The last piece is left as it is, and the scan stops on it for the error it reports (incomplete, non-literal or unreachable), or because `find` found no opening from where it resumed. Constructs in the passed-over pieces are not looked at. The missing list only grows. |
| Resolver.NameRewriteOverlooksNothing | Source/cmExportFileGenerator.cxx:646-671 | Every kept piece but the last holds no opening and is followed by a replaced construct, which is the first opening from the start of that kept piece. Any other construct lies inside a passed-over piece or the last piece. |
| NameResume.AdjacentConstructSkipped | Source/cmExportFileGenerator.cxx:669-670 | As written, `open + "a>" + open + "b>"` with `a` resolving to `x` gives `x` followed by the untouched second construct, and no error. |
| NameResume.TargetNameConstructSkipped | Source/cmExportFileGenerator.cxx:669-670 | The same for `$<TARGET_NAME:a>$<TARGET_NAME:b>`: the result is `x$<TARGET_NAME:b>`, with no error. |
| NameResume.ResumedNameRewriteComplete | Source/cmExportFileGenerator.cxx:646-671 | The scan that resumes right after the name is sound as `NameRewriteSound` states, overlooks no construct, and passes over no text. |
| NameResume.AdjacentConstructsReplaced | Source/cmExportFileGenerator.cxx:646-671 | The resumed scan replaces both adjacent constructs: the result is `xy`, with no error. |
| NameResume.NameRewriteAgrees | Source/cmExportFileGenerator.cxx:669-670 | When no replacement passes over text, the scan as written computes what the resumed scan computes. |
| NameResume.ResumedNotIdempotent | Source/cmExportFileGenerator.cxx:646-671 | A name that completes an opening starting before it leaves a new construct, so a second pass changes the text again. |
| NameResume.TargetNameNotIdempotent | Source/cmExportFileGenerator.cxx:646-671 | `$<TARGET_` + `$<TARGET_NAME:a>` + `:b>` with `a` resolving to `NAME` gives `$<TARGET_NAME:b>`, which a second pass turns into `y`. |
| NameResume.StableNamesNotIdempotent | Source/cmExportFileGenerator.cxx:646-671 | A configuration whose names are stable and inert still gives that result, so idempotence does not hold even then. |
| Generator.ExportFileGenerator.NameConstruct | Source/cmExportFileGenerator.cxx:648-670 | One pass of the loop either stops on the error the reference scan stops on, with text and missing list unchanged, or moves forward keeping the outcome, with the search from the old `>` finding what the search from the cut finds. |
| Generator.ExportFileGenerator.NameSubstitute | Source/cmExportFileGenerator.cxx:669-670 | The construct from the opening to `>` is replaced by the name. The scan point moves past the name and the passed-over text, the outcome is kept, and the search from the old `>` finds the same construct. |
| Resolver.NameSubstituted | Source/cmExportFileGenerator.cxx:669-670 | After a replacement, the text up to the scan point and the rest still give the outcome of the reference scan, and searching from the old `>` is searching from the scan point. |
| Generator.ExportFileGenerator.ResolveNameTargets | Source/cmExportFileGenerator.cxx:646-671 | The loop, resuming at the old index of `>` after each replacement, computes exactly the reference scan `Resolver.NameRewrite`: the text, the missing list and the error it stopped on. |
| Generator.ExportFileGenerator.ResolveTargetsInGeneratorExpression | Source/cmExportFileGenerator.cxx:606-679 | The output is the `$<TARGET_NAME:` scan of the `$<TARGET_PROPERTY:` scan's result. Exactly one fatal message is issued when the second scan stopped on an error, and none otherwise. The missing list only grows. |
| Resolver.ResolveExpressionGrows | Source/cmExportFileGenerator.cxx:606-679 | Resolving one expression never drops an entry of the missing list. |
| ImportProperties.LinkInterfaceContent | Source/cmExportFileGenerator.cxx:713-728 | The suffixed `LINK_INTERFACE_LIBRARIES` property is preferred, and the unsuffixed one is used only when the suffixed one is unset. |
| Generator.ExportFileGenerator.SetImportLinkInterface | Source/cmExportFileGenerator.cxx:689-761 | Only `IMPORTED_LINK_INTERFACE_LIBRARIES<suffix>` can change. With no link interface, nothing changes. When the implementation is the interface, the namespaced libraries are stored, or nothing for an empty list. Otherwise: no property changes nothing; under CMP0022 NEW without `ExportOld` there is one fatal error; a value of "" is stored as ""; a value that preprocesses to "" changes nothing; and any other value is stored resolved with free-target replacement. |
| ImportProperties.SonameValue | Source/cmExportFileGenerator.cxx:786-794 | The soname value ends with the target's soname, and is exactly the soname on a platform without install names. |
| ImportProperties.DetailKeysDistinct | Source/cmExportFileGenerator.cxx:776-825 | The five per-configuration keys are pairwise distinct for any suffix. |
| Generator.ExportFileGenerator.SetSonameProperty | Source/cmExportFileGenerator.cxx:776-803 | A shared or module library on a non-DLL platform gets exactly one of `IMPORTED_SONAME<suffix>`, holding the soname, or `IMPORTED_NO_SONAME<suffix>` = `TRUE`. The other key is left as it was. Other targets change neither key, and no other key changes. |
| ImportProperties.LinkDetailsCompose | Source/cmExportFileGenerator.cxx:806-825 | The three link-detail updates together set each of their keys as `LinkDetailsSet` says, and change no other key. |
| ImportProperties.LinkDetailsKeepSoname | Source/cmExportFileGenerator.cxx:776-825 | The link-detail updates after the soname step leave the soname keys as that step set them, and all other keys as they were before both. |
| Generator.ExportFileGenerator.SetLinkDetails | Source/cmExportFileGenerator.cxx:806-825 | The languages are stored namespaced when there are any, and they extend the missing list. The dependent libraries are stored namespaced when there are any, and they never extend the missing list. The multiplicity is stored in decimal only when it is above 0. No other key changes. |
| Generator.ExportFileGenerator.SetImportDetailProperties | Source/cmExportFileGenerator.cxx:764-826 | The soname rule holds. Without a link interface, the link keys and the missing list are unchanged. With one, the three link keys are set as `SetLinkDetails` says. No key outside the five detail keys changes. |
| Text.DecimalRoundTrip | Source/cmExportFileGenerator.cxx:819-822 | The multiplicity's decimal text is non-empty, made of digits, and reads back as the multiplicity. |
| ScriptText.LibraryKeyword | Source/cmExportFileGenerator.cxx:953-967 | The library kinds have a keyword, and executables and other kinds have none. |
| ScriptText.AddCommand | Source/cmExportFileGenerator.cxx:948-970 | Every kind the generator exports gets a creation command, and other kinds get none. |
| ScriptText.AddCommandInjective | Source/cmExportFileGenerator.cxx:948-970 | Different target kinds give different creation commands. |
| ScriptText.LibrariesDiffer | Source/cmExportFileGenerator.cxx:953-967 | Two different library kinds give different `add_library` commands. |
| ScriptText.ExecutableNotLibrary | Source/cmExportFileGenerator.cxx:950-967 | An executable's command is never a library's command. |
| ScriptText.FlagLine | Source/cmExportFileGenerator.cxx:972-997 | A property line is written exactly when its flag is on. |
| Generator.ExportFileGenerator.GenerateImportTargetCode | Source/cmExportFileGenerator.cxx:937-999 | The text is the comment, the creation command for the kind, the `ENABLE_EXPORTS`, `FRAMEWORK`, `MACOSX_BUNDLE` and `BUNDLE` lines for the flags that are on, and a blank line. |
| Generator.ExportFileGenerator.GenerateImportPropertyCode | Source/cmExportFileGenerator.cxx:1002-1035 | The text is the comment, the `IMPORTED_CONFIGURATIONS` append with the upper-cased configuration or `NOCONFIG`, and the `set_target_properties` block in key order. |
| ScriptText.DedupElements | Source/cmExportFileGenerator.cxx:1042-1060 | The `foreach` lists exactly the names of the missing-targets list. |
| ScriptText.DedupDistinct | Source/cmExportFileGenerator.cxx:1042-1060 | No name is listed twice. |
| ScriptText.DedupOrder | Source/cmExportFileGenerator.cxx:1042-1060 | The names come in the order of their first occurrence. |
| ScriptText.FirstIndex | Source/cmExportFileGenerator.cxx:1042-1060 | The first occurrence of a name is an index where it occurs, and no earlier index holds it. |
| ScriptText.DedupStep | Source/cmExportFileGenerator.cxx:1054-1060 | One more name is listed exactly when the `emitted` set does not hold it yet. |
| Generator.ExportFileGenerator.GenerateMissingTargetsCheckCode | Source/cmExportFileGenerator.cxx:1039-1084 | An empty list gives only the comment. Otherwise the text holds each distinct missing name once, in first-occurrence order, between the fixed head and tail of the check. |
| ScriptText.PresentValuesElements | Source/cmExportFileGenerator.cxx:1135-1144 | Every location the map has contributes its value, and every listed file is the value of such a location. |
| ScriptText.PresentValuesCount | Source/cmExportFileGenerator.cxx:1135-1144 | Distinct locations give one listed file per location the map has. |
| ScriptText.Elements | Source/cmExportFileGenerator.cxx:1135-1144 | The set holds exactly the entries of the list. |
| ScriptText.ImportedFilesListed | Source/cmExportFileGenerator.cxx:1122-1147 | The files listed for a target are exactly the values of its imported locations that are set, one per such location. |
| ScriptText.WriteFileItems | Source/cmExportFileGenerator.cxx:1135-1144 | The loop writes the quoted values of the set locations in key order. |
| Generator.ExportFileGenerator.GenerateImportedFileChecksCode | Source/cmExportFileGenerator.cxx:1122-1147 | The text appends the target to `_IMPORT_CHECK_TARGETS` and lists its files under `_IMPORT_CHECK_FILES_FOR_<name>`. |
| Text.FindSpec | Source/cmExportFileGenerator.cxx:617-620 | `find` returns the first match at or after the start, and `npos` when there is none. |
| Text.Replace | Source/cmExportFileGenerator.cxx:638 | `replace` keeps the text before and after the replaced range and puts the new text in between. |
| Text.Upper | Source/cmExportFileGenerator.cxx:127 | Upper-casing keeps the length and maps each character through ASCII upper-casing. |
| Text.JoinItemCount | Source/cmExportFileGenerator.cxx:846-860 | n items without `;` joined with `;` hold n-1 separators. |

## Findings

| source | as written | input that shows it | evidently intended | confidence | as-written member | corrected member |
|---|---|---|---|---|---|---|
| Source/cmExportFileGenerator.cxx:669-670 | After replacing a construct by a shorter name, the `$<TARGET_NAME:` loop resumes at the old index of `>`, past the start of the text that follows | `$<TARGET_NAME:a>$<TARGET_NAME:b>` with `a` resolving to a one-character name: the result keeps `$<TARGET_NAME:b>` and no error is issued | resume right after the inserted name, so every complete, literal, reachable construct is replaced | not executed | NameResume.AdjacentConstructSkipped | NameResume.ResumedNameRewriteComplete |

## Left out

- File I/O is not modelled: opening the export file, atomic or appending writes, and the stream error path of `GenerateImportFile` (lines 62-116). Each emitter returns the text it would write.
- `GenerateImportConfig` is modelled only as the suffix it computes. It dispatches to the virtual `GenerateImportTargetsConfig` of the subclasses, which is not part of this model.
- `AddConfiguration`, `SetExportFile`, `GetMainExportFileName` and `GenerateRequiredCMakeVersion` only store or return fields, and are not modelled.
- The fixed script text is not modelled: the header and footer (lines 868-901), the expected-targets guard (lines 904-935) and the file-check loop (lines 1088-1118). Only the fixed head and tail of the missing-targets check are kept, because that text wraps data.
- `cmGeneratorExpression::Preprocess`, `Split`, `Find` and `Evaluate`, the `cmSystemTools` path predicates, `ExpandListArgument`, `IsOn` and the build-model queries are functions of `BuildModel.Env`. Their code is not part of this model. `Evaluate` returns the evaluated text and whether it had a context-sensitive condition.
- The virtual hooks `HandleMissingTarget` and `InstallNameDir` are functions of `BuildModel.Env`. The no-op `ReplaceInstallPrefix` (lines 683-686) is the identity.
- Messages are modelled by their severity only. Their wording and the `IssueMessage` transport are left out.
- A single `Env` stands for the target's makefile and the global generator; the model does not distinguish them.
- The lookup `cmTarget::GetProperty` is a field of `BuildModel.Target`; the lazily computed properties of real targets are not modelled.
- Generator.ExportFileGenerator.ResolveNameTargets: requires `Resolver.InertNames`, so that every namespaced name contains no `$<` and does not end in `$`. Without it the source's loop can find a construct inside, or across the end of, a name it has just inserted, and the loop need not terminate. Behaviour on such names is not modelled.
- Generator.ExportFileGenerator.ResolveTargetsInGeneratorExpression: the same `InertNames` requirement, and likewise every method that resolves generator expressions.
- CompatibleInterface.CollectCompatibleNames: `std::set` iteration order is not modelled. The names are visited in any order, and `CompatibleInterface.InterfaceCopyStep` shows the result does not depend on it.
- Generator.ExportFileGenerator.GenerateImportTargetCode: the `add_executable`/`add_library` text is stated through `ScriptText.AddCommand` and `ScriptText.FlagLine`. Line counts of the emitted text are not stated.
- Integer widths are not modelled. Positions are unbounded naturals, and `npos` is the absent case of an option.
- Generator.ExportFileGenerator.ResolveNameTargets: offsets are counted in characters, not in UTF-8 bytes as `std::string` counts them. Because the loop resumes at a stale index, text with multi-byte characters after a construct can be passed over differently from the source.
- Generator.ExportFileGenerator.ResolveNameTargets keeps the resume at the old `>` as written. The corrected scan `NameResume.ResumedNameRewrite` is proved about, but the generator does not use it.
- ImportProperties.SuffixDistinguishes: per-configuration keys are distinct only up to the label. The empty configuration and `noconfig` share keys (`ImportProperties.NoConfigCollides`), as in the source.
- Namespacing.AddTargetNamespace: target identity is modelled by name. The source compares target pointers against the export set, and the model tests whether the target's name is in it.
- Namespacing.AddTargetNamespace: the `HandleMissingTarget` hook (line 558) is a virtual of the subclasses that receives the missing-targets list by reference and may issue its own messages. Here it is a function of the depender and the dependee only. It never reads the missing list, it only appends to it, and it issues no message. So `Namespacing.NameIndependentOfMissing` and every "the missing list only grows" clause rest on this shape of the hook. The messages each operation returns are those this file issues with `IssueMessage`, not the hook's.
