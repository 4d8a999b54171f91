/**
  `cmExportFileGenerator`: the state one export pass shares between its
  operations (its namespace, the targets it exports, the `ExportOld` flag
  and the collaborators it consults) and the operations that read it.

  The property map and the missing-targets list that the C++ methods take
  by reference are passed in and handed back as values.
 */
module Generator {
  import opened Wrappers
  import opened Text
  import opened BuildModel
  import opened Namespacing
  import opened Resolver
  import opened FreeTargets
  import opened ImportProperties
  import opened IncludeDirs
  import opened CompatibleInterface
  import opened ScriptText

  class ExportFileGenerator {
    const namespace: string
    const exportedTargets: set<string>
    const exportOld: bool
    const env: Env

    constructor (namespace: string, exportedTargets: set<string>, exportOld: bool, env: Env)
      ensures this.namespace == namespace && this.exportedTargets == exportedTargets
      ensures this.exportOld == exportOld && this.env == env
    {
      this.namespace := namespace;
      this.exportedTargets := exportedTargets;
      this.exportOld := exportOld;
      this.env := env;
    }

    /** The settings `AddTargetNamespace` reads. */
    function Cfg(): Config
    {
      Config(namespace, exportedTargets, exportOld, env)
    }

    /**
      The first loop of `ResolveTargetsInGeneratorExpression`: every
      `$<TARGET_PROPERTY:name,...>` whose name field is a literal gets that
      field namespaced, in place, scanning on from after its comma.
     */
    method ResolvePropertyTargets(input: string, target: Target, missing: seq<string>) returns (output: string, missingOut: seq<string>)
      ensures Rewritten(output, missingOut) == PropertyRewrite(Cfg(), target, TargetPropertyOpen, input, missing)
    {
      output, missingOut := input, missing;
      var lastPos: nat := 0;
      ghost var done: string := [];
      ghost var rest := input;
      ghost var goal := PropertyRewrite(Cfg(), target, TargetPropertyOpen, input, missing);
      PropertyStart(Cfg(), target, TargetPropertyOpen, input, missing);
      var found := Find(output, TargetPropertyOpen, lastPos);
      while found.Some?
        invariant lastPos <= |output|
        invariant done == output[..lastPos] && rest == output[lastPos..]
        invariant found == Find(output, TargetPropertyOpen, lastPos)
        invariant PropertyFinish(Cfg(), target, TargetPropertyOpen, done, rest, missingOut) == goal
        decreases |rest|
      {
        output, lastPos, missingOut, done, rest := PropertyConstruct(TargetPropertyOpen, output, lastPos, missingOut, found.value, target, done, rest);
        found := Find(output, TargetPropertyOpen, lastPos);
      }
      PropertyHalt(TargetPropertyOpen, output, lastPos, done, rest);
      PropertyDone(Cfg(), target, TargetPropertyOpen, done, rest, missingOut);
    }

    /**
      The body of the first loop, at the construct the search from
      `lastPos` found at `pos`: skip the construct (resume at its name
      start) or namespace its name field and resume after the comma. The
      outcome of the loop is kept and the text still to scan shrinks.
     */
    method PropertyConstruct(open: Opening, input: string, lastPos: nat, missing: seq<string>, pos: nat, target: Target, ghost done: string, ghost rest: string)
      returns (output: string, nextPos: nat, missingOut: seq<string>, ghost nextDone: string, ghost nextRest: string)
      requires lastPos <= |input|
      requires done == input[..lastPos] && rest == input[lastPos..]
      requires Find(input, open, lastPos) == Some(pos)
      ensures nextPos <= |output|
      ensures nextDone == output[..nextPos] && nextRest == output[nextPos..]
      ensures |nextRest| < |rest|
      ensures PropertyFinish(Cfg(), target, open, nextDone, nextRest, missingOut)
              == PropertyFinish(Cfg(), target, open, done, rest, missing)
    {
      var nameStart := pos + |open|;
      var closePos := Find(input, ">", nameStart);
      var commaPos := Find(input, ",", nameStart);
      var nextOpenPos := Find(input, "$<", nameStart);
      if commaPos.None? || closePos.None? || PosLess(closePos, commaPos) || PosLess(nextOpenPos, commaPos) {
        // the implied 'this' target, an incomplete construct or a name that is not a literal
        assert NameFieldEnd(input, nameStart).None?;
        output, nextPos, missingOut, nextDone, nextRest := SkipField(open, input, lastPos, missing, pos, target, done, rest);
      } else {
        assert NameFieldEnd(input, nameStart) == commaPos;
        PropertyRenameAt(open, input, lastPos, pos, nameStart, commaPos.value, done, rest);
        output, nextPos, missingOut, nextDone, nextRest := RenameField(open, input, lastPos, missing, nameStart, commaPos.value, target, done, rest);
      }
    }

    /** Leaves the construct found at `pos` as it is and resumes at its name start. */
    method SkipField(open: Opening, input: string, lastPos: nat, missing: seq<string>, pos: nat, target: Target, ghost done: string, ghost rest: string)
      returns (output: string, nextPos: nat, missingOut: seq<string>, ghost nextDone: string, ghost nextRest: string)
      requires lastPos <= |input|
      requires done == input[..lastPos] && rest == input[lastPos..]
      requires Find(input, open, lastPos) == Some(pos)
      requires NameFieldEnd(input, pos + |open|).None?
      ensures output == input && missingOut == missing && nextPos == pos + |open|
      ensures nextPos <= |output|
      ensures nextDone == output[..nextPos] && nextRest == output[nextPos..]
      ensures |nextRest| < |rest|
      ensures PropertyFinish(Cfg(), target, open, nextDone, nextRest, missingOut)
              == PropertyFinish(Cfg(), target, open, done, rest, missing)
    {
      var nameStart := pos + |open|;
      PropertySkipAt(open, input, lastPos, pos, done, rest);
      PropertySkipStep(Cfg(), target, open, done, rest, nameStart - lastPos, missing);
      output, nextPos, missingOut := input, nameStart, missing;
      nextDone, nextRest := done + rest[..nameStart - lastPos], rest[nameStart - lastPos..];
    }

    /**
      Namespaces the literal name field `input[pos + |open|..comma]` of the
      construct found at `pos`, replacing it in place when the name refers to
      a target, and resumes after the comma.
     */
    method RenameField(open: Opening, input: string, lastPos: nat, missing: seq<string>, nameStart: nat, comma: nat, target: Target, ghost done: string, ghost rest: string)
      returns (output: string, nextPos: nat, missingOut: seq<string>, ghost nextDone: string, ghost nextRest: string)
      requires lastPos <= nameStart <= comma < |input| && input[comma] == ','
      requires done == input[..lastPos] && rest == input[lastPos..]
      requires NextProperty(open, rest) == Resolver.RenameField(nameStart - lastPos, comma - lastPos)
      ensures var a := AddTargetNamespace(Cfg(), input[nameStart..comma], target, missing);
              && IsReplacement(output, input, nameStart, comma - nameStart, a.name)
              && nextPos == nameStart + |a.name| + 1 && missingOut == a.missing
      ensures nextPos <= |output|
      ensures nextDone == output[..nextPos] && nextRest == output[nextPos..]
      ensures |nextRest| < |rest|
      ensures PropertyFinish(Cfg(), target, open, nextDone, nextRest, missingOut)
              == PropertyFinish(Cfg(), target, open, done, rest, missing)
    {
      var targetName := input[nameStart..comma];
      var a := AddTargetNamespace(Cfg(), targetName, target, missing);
      output := ReplaceFound(input, nameStart, comma, a);
      nextPos, missingOut := nameStart + |a.name| + 1, a.missing;
      nextDone, nextRest := done + (rest[..nameStart - lastPos] + (a.name + ",")), rest[comma - lastPos + 1..];
      PropertyRenamed(Cfg(), target, open, input, lastPos, nameStart, comma, missing, a, done, rest, output, nextPos, nextDone, nextRest);
    }

    /**
      Replaces the name field `input[nameStart..comma]` by the namespaced
      name when `AddTargetNamespace` found a target; otherwise the name is
      the field itself and the text stays as it is.
     */
    method ReplaceFound(input: string, nameStart: nat, comma: nat, a: Namespaced) returns (output: string)
      requires nameStart <= comma <= |input|
      requires !a.found ==> a.name == input[nameStart..comma]
      ensures IsReplacement(output, input, nameStart, comma - nameStart, a.name)
      ensures !a.found ==> output == input
    {
      if a.found {
        output := Replace(input, nameStart, comma - nameStart, a.name);
      } else {
        output := input;
      }
    }

    /**
      The second loop of `ResolveTargetsInGeneratorExpression`: every
      complete `$<TARGET_NAME:name>` with a literal, reachable name is
      replaced by the resolved name, and the search goes on from the index
      its `>` had before the replacement; the first construct without `>`,
      with a `$<` in its name, or naming no target stops the loop with an
      error.
     */
    method ResolveNameTargets(input: string, target: Target, missing: seq<string>)
      returns (output: string, missingOut: seq<string>, error: Option<NameError>)
      requires InertNames(Cfg(), target)
      ensures Resolved(output, missingOut, error) == NameRewrite(Cfg(), target, TargetNameOpen, input, missing)
    {
      var open := TargetNameOpen;
      output, missingOut, error := input, missing, None;
      var lastPos: nat := 0;
      ghost var resume: nat := 0;
      ghost var done: string := [];
      ghost var rest := input;
      ghost var goal := NameRewrite(Cfg(), target, open, input, missing);
      NameStart(Cfg(), target, open, input, missing);
      var found := Find(output, open, lastPos);
      while found.Some?
        invariant resume <= |output|
        invariant done == output[..resume] && rest == output[resume..]
        invariant found == Find(output, open, lastPos) == Find(output, open, resume)
        invariant NameFinish(Cfg(), target, open, done, rest, missingOut) == goal
        invariant error == None
        decreases |rest|
      {
        var next, nextLast, m, e;
        ghost var nextResume, nextDone, nextRest;
        next, nextLast, m, e, nextResume, nextDone, nextRest := NameConstruct(open, output, missingOut, found.value, target, resume, done, rest);
        if e.Some? {
          error := e;
          break;
        }
        output, lastPos, missingOut := next, nextLast, m;
        resume, done, rest := nextResume, nextDone, nextRest;
        found := Find(output, open, lastPos);
      }
      if error.None? {
        assert NameDecision(Cfg(), target, open, output, resume, missingOut) == Stop(None);
        NameHalt(Cfg(), target, open, output, resume, missingOut, done, rest);
        NameStopStep(Cfg(), target, open, done, rest, missingOut);
      }
    }

    /**
      The body of the second loop, at the construct the search found at
      `pos`: stop with an error (leaving the text as it is) when it has no
      `>`, when its name holds `$<` or when the name refers to no target;
      otherwise replace it by the resolved name and go on searching from the
      old index of its `>`. Either way the outcome of the loop is kept.
     */
    method NameConstruct(open: Opening, input: string, missing: seq<string>, pos: nat, target: Target,
                         ghost resume: nat, ghost done: string, ghost rest: string)
      returns (output: string, nextPos: nat, missingOut: seq<string>, error: Option<NameError>,
               ghost nextResume: nat, ghost nextDone: string, ghost nextRest: string)
      requires InertNames(Cfg(), target)
      requires resume <= |input|
      requires done == input[..resume] && rest == input[resume..]
      requires Find(input, open, resume) == Some(pos)
      ensures error.Some? ==> output == input && missingOut == missing
                              && Resolved(input, missing, error) == NameFinish(Cfg(), target, open, done, rest, missing)
      ensures error.None? ==> && nextResume <= |output|
                              && nextDone == output[..nextResume] && nextRest == output[nextResume..]
                              && Find(output, open, nextPos) == Find(output, open, nextResume)
                              && |nextRest| < |rest|
                              && NameFinish(Cfg(), target, open, nextDone, nextRest, missingOut)
                                 == NameFinish(Cfg(), target, open, done, rest, missing)
    {
      output, nextPos, missingOut := input, 0, missing;
      nextResume, nextDone, nextRest := resume, done, rest;
      var nameStart := pos + |open|;
      var closePos := Find(input, ">", nameStart);
      if closePos.None? {
        error := Some(Incomplete);
      } else {
        var endPos := closePos.value;
        var targetName := input[nameStart..endPos];
        if Contains(targetName, "$<") {
          error := Some(NonLiteral);
        } else {
          var a := AddTargetNamespace(Cfg(), targetName, target, missing);
          if !a.found {
            error := Some(Unreachable);
          } else {
            assert NameDecision(Cfg(), target, open, input, resume, missing) == Substitute(pos, endPos, a);
            NameAdvanceAt(Cfg(), target, open, input, resume, missing, pos, endPos, done, rest);
            output, nextResume, nextDone, nextRest := NameSubstitute(open, input, missing, pos, endPos, a, target, resume, done, rest);
            nextPos, missingOut, error := endPos, a.missing, None;
            return;
          }
        }
      }
      assert NameDecision(Cfg(), target, open, input, resume, missing) == Stop(error);
      NameHalt(Cfg(), target, open, input, resume, missing, done, rest);
      NameStopStep(Cfg(), target, open, done, rest, missing);
    }

    /**
      `input.replace(pos, endPos - pos + 1, name)` for the construct
      `input[pos..endPos + 1]` and its resolved name: the outcome of the loop
      is kept, and the search from the old index of `>` finds what the search
      from where the reference scan resumes finds.
     */
    method NameSubstitute(open: Opening, input: string, missing: seq<string>, pos: nat, endPos: nat, a: Namespaced, target: Target,
                          ghost resume: nat, ghost done: string, ghost rest: string)
      returns (output: string, ghost nextResume: nat, ghost nextDone: string, ghost nextRest: string)
      requires resume <= pos <= endPos < |input|
      requires done == input[..resume] && rest == input[resume..]
      requires NameDecision(Cfg(), target, open, rest, 0, missing) == Substitute(pos - resume, endPos - resume, a)
      requires Inert(a.name)
      ensures IsReplacement(output, input, pos, endPos - pos + 1, a.name)
      ensures nextResume <= |output|
      ensures nextDone == output[..nextResume] && nextRest == output[nextResume..]
      ensures Find(output, open, endPos) == Find(output, open, nextResume)
      ensures |nextRest| < |rest|
      ensures NameFinish(Cfg(), target, open, nextDone, nextRest, a.missing) == NameFinish(Cfg(), target, open, done, rest, missing)
    {
      output := Replace(input, pos, endPos - pos + 1, a.name);
      ghost var after := rest[endPos - resume + 1..];
      ghost var d := SkipCount(endPos - pos, |a.name|, |after|);
      nextResume := pos + |a.name| + d;
      nextDone, nextRest := done + (rest[..pos - resume] + (a.name + after[..d])), after[d..];
      NameSubstituted(Cfg(), target, open, input, missing, resume, pos, endPos, a, done, rest, output, d, nextResume, nextDone, nextRest);
    }

    /**
      `ResolveTargetsInGeneratorExpression`: both loops, then one fatal
      error message when the second loop stopped on an error, and none
      otherwise. The missing-targets list only grows.
     */
    method ResolveTargetsInGeneratorExpression(input: string, target: Target, missing: seq<string>)
      returns (output: string, missingOut: seq<string>, msgs: seq<Severity>)
      requires InertNames(Cfg(), target)
      ensures var r := ResolveExpression(Cfg(), target, input, missing);
              && output == r.text
              && missingOut == r.missing
              && msgs == (if r.error.Some? then [FatalError] else [])
      ensures missing <= missingOut
    {
      var afterProperties, m := ResolvePropertyTargets(input, target, missing);
      var error;
      output, missingOut, error := ResolveNameTargets(afterProperties, target, m);
      msgs := if error.Some? then [FatalError] else [];
      PropertyRewriteSound(Cfg(), target, TargetPropertyOpen, input, missing);
      NameRewriteSound(Cfg(), target, TargetNameOpen, afterProperties, m);
    }

    /**
      `ResolveTargetsInGeneratorExpressions`: with `NoReplaceFreeTargets`
      the value is resolved as one generator expression; with
      `ReplaceFreeTargets` every entry of its `;`-list is resolved on its
      own, a bare target reference becoming its namespaced name, and the
      entries are joined again. The missing-targets list only grows.
     */
    method ResolveTargetsInGeneratorExpressions(input: string, target: Target, missing: seq<string>, replaceFree: bool)
      returns (output: string, missingOut: seq<string>, msgs: seq<Severity>)
      requires InertNames(Cfg(), target)
      ensures Outcome(output, missingOut, msgs) == ResolveValue(Cfg(), target, input, missing, replaceFree)
      ensures missing <= missingOut
    {
      if !replaceFree {
        output, missingOut, msgs := ResolveTargetsInGeneratorExpression(input, target, missing);
        return;
      }
      var parts := env.split(input);
      var sep := "";
      output, missingOut, msgs := "", missing, [];
      ghost var items: seq<string> := [];
      for i := 0 to |parts|
        invariant ResolveEntries(Cfg(), target, parts[..i], missing) == Entries(items, missingOut, msgs)
        invariant |items| == i
        invariant output == Join(items, ";")
        invariant sep == (if i == 0 then "" else ";")
      {
        ResolveEntriesSnoc(Cfg(), target, parts, i, missing);
        var li := parts[i];
        if env.findGenex(li).None? {
          var a := AddTargetNamespace(Cfg(), li, target, missingOut);
          li, missingOut := a.name, a.missing;
        } else {
          var e;
          li, missingOut, e := ResolveTargetsInGeneratorExpression(li, target, missingOut);
          msgs := msgs + e;
        }
        JoinSnoc(items, li, ";");
        output := output + sep + li;
        sep := ";";
        items := items + [li];
      }
      assert parts[..|parts|] == parts;
      ResolveEntriesCount(Cfg(), target, parts, missing);
    }

    /** `PopulateInterfaceProperty(propName, target, properties)`: copies the raw property when the target has it. */
    method CopyInterfaceProperty(propName: string, target: Target, properties: ImportPropertyMap) returns (out: ImportPropertyMap)
      ensures out == CopyKey(target, propName, properties)
    {
      out := properties;
      var input := GetProperty(target, propName);
      if input.Some? {
        out := out[propName := input.value];
      }
    }

    /**
      `PopulateInterfaceProperty(propName, outputName, target, rule,
      properties, missingTargets)`: an unset property stores nothing; one set
      to the empty string is stored empty; otherwise the preprocessed value
      is resolved and stored, unless preprocessing left nothing. No other
      key changes.
     */
    method PopulateInterfacePropertyAs(propName: string, outputName: string, target: Target, rule: PreprocessContext,
                                       properties: ImportPropertyMap, missing: seq<string>)
      returns (out: ImportPropertyMap, missingOut: seq<string>, msgs: seq<Severity>)
      requires InertNames(Cfg(), target)
      ensures OnlyKeyChanged(properties, out, outputName)
      ensures missing <= missingOut
      ensures GetProperty(target, propName).None? ==> out == properties && missingOut == missing && msgs == []
      ensures GetProperty(target, propName) == Some("") ==> out == properties[outputName := ""] && missingOut == missing && msgs == []
      ensures GetProperty(target, propName).Some? && GetProperty(target, propName).value != "" ==>
              var prepro := env.preprocess(GetProperty(target, propName).value, rule, false);
              var r := ResolveValue(Cfg(), target, prepro, missing, false);
              && (prepro == "" ==> out == properties && missingOut == missing && msgs == [])
              && (prepro != "" ==> out == properties[outputName := r.text] && missingOut == r.missing && msgs == r.msgs)
    {
      out, missingOut, msgs := properties, missing, [];
      var input := GetProperty(target, propName);
      if input.Some? {
        if input.value == "" {
          out := out[outputName := ""];
          return;
        }
        var prepro := env.preprocess(input.value, rule, false);
        if prepro != "" {
          prepro, missingOut, msgs := ResolveTargetsInGeneratorExpressions(prepro, target, missingOut, false);
          out := out[outputName := prepro];
        }
      }
    }

    /** `PopulateInterfaceProperty(propName, target, rule, properties, missingTargets)`: the property stored under its own name. */
    method PopulateInterfaceProperty(propName: string, target: Target, rule: PreprocessContext,
                                     properties: ImportPropertyMap, missing: seq<string>)
      returns (out: ImportPropertyMap, missingOut: seq<string>, msgs: seq<Severity>)
      requires InertNames(Cfg(), target)
      ensures OnlyKeyChanged(properties, out, propName)
      ensures missing <= missingOut
      ensures GetProperty(target, propName).None? ==> out == properties && missingOut == missing && msgs == []
      ensures GetProperty(target, propName) == Some("") ==> out == properties[propName := ""] && missingOut == missing && msgs == []
      ensures GetProperty(target, propName).Some? && GetProperty(target, propName).value != "" ==>
              var prepro := env.preprocess(GetProperty(target, propName).value, rule, false);
              var r := ResolveValue(Cfg(), target, prepro, missing, false);
              && (prepro == "" ==> out == properties && missingOut == missing && msgs == [])
              && (prepro != "" ==> out == properties[propName := r.text] && missingOut == r.missing && msgs == r.msgs)
    {
      out, missingOut, msgs := PopulateInterfacePropertyAs(propName, propName, target, rule, properties, missing);
    }

    /**
      `PopulateInterfaceLinkLibrariesProperty`: for a linkable target whose
      `INTERFACE_LINK_LIBRARIES` preprocesses to something, the value with
      every free target reference resolved is stored, and the answer is
      true; otherwise nothing changes and the answer is false.
     */
    method PopulateInterfaceLinkLibrariesProperty(target: Target, rule: PreprocessContext, properties: ImportPropertyMap, missing: seq<string>)
      returns (stored: bool, out: ImportPropertyMap, missingOut: seq<string>, msgs: seq<Severity>)
      requires InertNames(Cfg(), target)
      ensures stored <==> target.linkable && GetProperty(target, InterfaceLinkLibrariesKey).Some?
                          && env.preprocess(GetProperty(target, InterfaceLinkLibrariesKey).value, rule, false) != ""
      ensures !stored ==> out == properties && missingOut == missing && msgs == []
      ensures stored ==> var r := ResolveValue(Cfg(), target, env.preprocess(GetProperty(target, InterfaceLinkLibrariesKey).value, rule, false), missing, true);
              out == properties[InterfaceLinkLibrariesKey := r.text] && missingOut == r.missing && msgs == r.msgs
      ensures OnlyKeyChanged(properties, out, InterfaceLinkLibrariesKey)
      ensures missing <= missingOut
    {
      stored, out, missingOut, msgs := false, properties, missing, [];
      if !target.linkable {
        return;
      }
      var input := GetProperty(target, InterfaceLinkLibrariesKey);
      if input.Some? {
        var prepro := env.preprocess(input.value, rule, false);
        if prepro != "" {
          prepro, missingOut, msgs := ResolveTargetsInGeneratorExpressions(prepro, target, missingOut, true);
          out := out[InterfaceLinkLibrariesKey := prepro];
          stored := true;
        }
      }
    }

    /**
      `PopulateIncludeDirectoriesInterface`, for the `INCLUDES DESTINATION`
      value `includeDirs` of the installed target: a context-sensitive
      destination is a fatal error; with neither the property nor a
      destination nothing is stored, with an empty property and no
      destination the empty value is stored; otherwise the property and the
      prefixed destination entries are preprocessed, resolved and vetted,
      and stored only when the vetting passes.
     */
    method PopulateIncludeDirectoriesInterface(includeDirs: string, target: Target, rule: PreprocessContext,
                                               properties: ImportPropertyMap, missing: seq<string>)
      returns (out: ImportPropertyMap, missingOut: seq<string>, msgs: seq<Severity>)
      requires rule == InstallInterface
      requires InertNames(Cfg(), target)
      ensures OnlyKeyChanged(properties, out, InterfaceIncludeDirectoriesKey)
      ensures missing <= missingOut
      ensures var evaluated := env.evaluate(env.preprocess(includeDirs, rule, true), target);
              var input := GetProperty(target, InterfaceIncludeDirectoriesKey);
              && (evaluated.1 ==> out == properties && missingOut == missing && msgs == [FatalError])
              && (!evaluated.1 && input.None? && evaluated.0 == "" ==> out == properties && missingOut == missing && msgs == [])
              && (!evaluated.1 && input == Some("") && evaluated.0 == "" ==>
                    out == properties[InterfaceIncludeDirectoriesKey := ""] && missingOut == missing && msgs == [])
              && (!evaluated.1 && ((input.Some? && input.value != "") || evaluated.0 != "") ==>
                    var prepro := env.preprocess(IncludeList(env, input, evaluated.0), rule, true);
                    var r := ResolveValue(Cfg(), target, prepro, missing, false);
                    var v := CheckItems(env, target, env.split(r.text));
                    && (prepro == "" ==> out == properties && missingOut == missing && msgs == [])
                    && (prepro != "" ==> missingOut == r.missing && msgs == r.msgs + v.msgs
                                         && out == (if v.fatal then properties else properties[InterfaceIncludeDirectoriesKey := r.text])))
    {
      out, missingOut, msgs := properties, missing, [];
      var propName := InterfaceIncludeDirectoriesKey;
      var input := GetProperty(target, propName);
      var dirs := env.preprocess(includeDirs, rule, true);
      var evaluated := env.evaluate(dirs, target);
      var exportDirs := evaluated.0;
      if evaluated.1 {
        msgs := [FatalError];
        return;
      }
      if input.None? && exportDirs == "" {
        return;
      }
      if input == Some("") && exportDirs == "" {
        out := out[propName := ""];
        return;
      }
      exportDirs := PrefixItems(env, exportDirs);
      var includes := if input.Some? then input.value else "";
      var sep := if input.Some? then ";" else "";
      includes := includes + sep + exportDirs;
      var prepro := env.preprocess(includes, rule, true);
      if prepro != "" {
        prepro, missingOut, msgs := ResolveTargetsInGeneratorExpressions(prepro, target, missingOut, false);
        var ok, checkMsgs := CheckInterfaceDirs(env, prepro, target);
        msgs := msgs + checkMsgs;
        if !ok {
          return;
        }
        out := out[propName := prepro];
      }
    }

    /**
      `PopulateCompatibleInterfaceProperties`: the four compatible-interface
      properties of the target, then `INTERFACE_<name>` for every name
      collected from them and from the targets it links to, each copied from
      the target when it has it. Which keys are copied does not depend on
      the order the names are visited in.
     */
    method PopulateCompatibleInterfaceProperties(target: Target, properties: ImportPropertyMap)
      returns (out: ImportPropertyMap, msgs: seq<Severity>)
      ensures out == CopyKeys(target, CopiedKeys(env, target), properties)
      ensures msgs == CompatibleFailures(env, target)
    {
      CompatibleCopyStart(target, properties);
      out := CopyInterfaceProperty(CompatibleBool, target, properties);
      out := CopyInterfaceProperty(CompatibleString, target, out);
      out := CopyInterfaceProperty(CompatibleNumberMin, target, out);
      out := CopyInterfaceProperty(CompatibleNumberMax, target, out);
      ghost var base := CompatibleKeys();

      var ifaceProperties, m := CollectCompatibleNames(env, target);
      msgs := m;
      out := PopulateNamedInterfaceProperties(target, ifaceProperties, base, properties, out);
    }

    /**
      The last loop of `PopulateCompatibleInterfaceProperties`: copies
      `INTERFACE_<name>` for every collected name, on top of the keys already
      copied from the target.
     */
    method PopulateNamedInterfaceProperties(target: Target, names: set<string>, ghost copied: set<string>,
                                            ghost start: ImportPropertyMap, properties: ImportPropertyMap)
      returns (out: ImportPropertyMap)
      requires properties == CopyKeys(target, copied, start)
      ensures out == CopyKeys(target, copied + InterfaceKeys(names), start)
    {
      out := properties;
      var rest := names;
      assert InterfaceKeys(names - rest) == {};
      assert copied + InterfaceKeys(names - rest) == copied;
      while rest != {}
        invariant rest <= names
        invariant out == CopyKeys(target, copied + InterfaceKeys(names - rest), start)
        decreases |rest|
      {
        var p :| p in rest;
        InterfaceCopyStep(target, copied, names, rest, p, start);
        out := CopyInterfaceProperty("INTERFACE_" + p, target, out);
        rest := rest - {p};
      }
      assert names - rest == names;
    }

    /**
      `SetImportLinkProperty(suffix, target, propName, entries, ...)`:
      nothing for an empty list; otherwise `propName + suffix` holds the
      namespaced entries, in order, joined with `;`.
     */
    method SetImportLinkProperty(suffix: string, target: Target, propName: string, entries: seq<string>,
                                 properties: ImportPropertyMap, missing: seq<string>)
      returns (out: ImportPropertyMap, missingOut: seq<string>)
      ensures entries == [] ==> out == properties && missingOut == missing
      ensures entries != [] ==> var r := NamespaceAll(Cfg(), target, entries, missing);
              out == properties[propName + suffix := Join(r.names, ";")] && missingOut == r.missing
      ensures OnlyKeyChanged(properties, out, propName + suffix)
      ensures missing <= missingOut
    {
      out, missingOut := properties, missing;
      if entries == [] {
        return;
      }
      var linkEntries := "";
      var sep := "";
      ghost var names: seq<string> := [];
      for i := 0 to |entries|
        invariant NamespaceAll(Cfg(), target, entries[..i], missing) == NamespacedList(names, missingOut)
        invariant |names| == i
        invariant linkEntries == Join(names, ";")
        invariant sep == (if i == 0 then "" else ";")
      {
        NamespaceAllSnoc(Cfg(), target, entries, i, missing);
        linkEntries := linkEntries + sep;
        sep := ";";
        var a := AddTargetNamespace(Cfg(), entries[i], target, missingOut);
        var temp := a.name;
        missingOut := a.missing;
        JoinSnoc(names, temp, ";");
        linkEntries := linkEntries + temp;
        names := names + [temp];
      }
      assert entries[..|entries|] == entries;
      var prop := propName + suffix;
      out := out[prop := linkEntries];
    }

    /**
      `SetImportDetailProperties(config, suffix, target, ...)`: a shared or
      module library on a platform without DLLs gets exactly one of
      `IMPORTED_SONAME<suffix>` (its soname) and
      `IMPORTED_NO_SONAME<suffix>` (`TRUE`); with a link interface, the
      namespaced languages and dependent shared libraries are stored, and
      the multiplicity when it is positive. Only the language list records
      missing targets. No other key changes.
     */
    method SetImportDetailProperties(config: string, suffix: string, target: Target, properties: ImportPropertyMap, missing: seq<string>)
      returns (out: ImportPropertyMap, missingOut: seq<string>)
      ensures SonameSet(env, target, config, suffix, properties, out)
      ensures env.linkInterface(target, config).None? ==>
              && missingOut == missing
              && SameAt(properties, out, ImportedLanguagesKey + suffix)
              && SameAt(properties, out, ImportedDependentKey + suffix)
              && SameAt(properties, out, ImportedMultiplicityKey + suffix)
      ensures env.linkInterface(target, config).Some? ==>
              LinkDetailsSet(Cfg(), target, env.linkInterface(target, config).value, ImportedLanguagesKey + suffix,
                             ImportedDependentKey + suffix, ImportedMultiplicityKey + suffix, properties, out, missing, missingOut)
      ensures forall k :: !DetailKey(suffix, k) ==> SameAt(properties, out, k)
    {
      DetailKeysDistinct(suffix);
      out := SetSonameProperty(config, suffix, target, properties);
      missingOut := missing;
      var iface := env.linkInterface(target, config);
      if iface.Some? {
        ghost var mid := out;
        out, missingOut := SetLinkDetails(suffix, target, iface.value, out, missingOut);
        LinkDetailsKeepSoname(Cfg(), target, iface.value, ImportedSonameKey + suffix, ImportedNoSonameKey + suffix,
                              ImportedLanguagesKey + suffix, ImportedDependentKey + suffix, ImportedMultiplicityKey + suffix,
                              properties, mid, out, missing, missingOut);
      }
    }

    /** The soname half of `SetImportDetailProperties`. */
    method SetSonameProperty(config: string, suffix: string, target: Target, properties: ImportPropertyMap)
      returns (out: ImportPropertyMap)
      ensures SonameSet(env, target, config, suffix, properties, out)
      ensures forall k :: k != ImportedSonameKey + suffix && k != ImportedNoSonameKey + suffix ==> SameAt(properties, out, k)
    {
      DetailKeysDistinct(suffix);
      out := properties;
      if target.kind == SharedLibrary || target.kind == ModuleLibrary {
        var dllPlatform := env.isOn("WIN32") || env.isOn("CYGWIN") || env.isOn("MINGW");
        if !dllPlatform {
          var prop: string;
          var value: string := "";
          var so := env.soName(target, config);
          if so.Some? {
            if env.isOn("CMAKE_PLATFORM_HAS_INSTALLNAME") {
              value := env.installNameDir(target, config);
            }
            prop := ImportedSonameKey;
            value := value + so.value;
          } else {
            prop := ImportedNoSonameKey;
            value := "TRUE";
          }
          prop := prop + suffix;
          out := out[prop := value];
        }
      }
    }

    /** The link-interface half of `SetImportDetailProperties`. */
    method SetLinkDetails(suffix: string, target: Target, iface: LinkInterface, properties: ImportPropertyMap, missing: seq<string>)
      returns (out: ImportPropertyMap, missingOut: seq<string>)
      ensures LinkDetailsSet(Cfg(), target, iface, ImportedLanguagesKey + suffix, ImportedDependentKey + suffix,
                             ImportedMultiplicityKey + suffix, properties, out, missing, missingOut)
      ensures forall k :: (k != ImportedLanguagesKey + suffix && k != ImportedDependentKey + suffix
                           && k != ImportedMultiplicityKey + suffix) ==> SameAt(properties, out, k)
    {
      DetailKeysDistinct(suffix);
      out, missingOut := SetImportLinkProperty(suffix, target, ImportedLanguagesKey, iface.languages, properties, missing);
      ghost var m1 := out;
      var dummy: seq<string> := [];
      out, dummy := SetImportLinkProperty(suffix, target, ImportedDependentKey, iface.sharedDeps, out, dummy);
      ghost var m2 := out;
      if iface.multiplicity > 0 {
        var prop := ImportedMultiplicityKey + suffix;
        out := out[prop := Decimal(iface.multiplicity)];
      }
      LinkDetailsCompose(Cfg(), target, iface, ImportedLanguagesKey + suffix, ImportedDependentKey + suffix,
                         ImportedMultiplicityKey + suffix, properties, m1, m2, out, missing, missingOut);
    }

    /**
      `SetImportLinkInterface(config, suffix, rule, target, ...)`: without a
      link interface nothing changes; an implementation that is its own
      interface stores its namespaced libraries; otherwise the old-style
      `LINK_INTERFACE_LIBRARIES` (the per-configuration one preferred) is
      exported, unless policy CMP0022 is NEW and the export did not ask for
      the old-style properties, which is a fatal error; an empty value is
      stored empty. Only `IMPORTED_LINK_INTERFACE_LIBRARIES<suffix>` changes.
     */
    method SetImportLinkInterface(config: string, suffix: string, rule: PreprocessContext, target: Target,
                                  properties: ImportPropertyMap, missing: seq<string>)
      returns (out: ImportPropertyMap, missingOut: seq<string>, msgs: seq<Severity>)
      requires InertNames(Cfg(), target)
      ensures OnlyKeyChanged(properties, out, ImportedLibrariesKey + suffix)
      ensures missing <= missingOut
      ensures env.linkInterface(target, config).None? ==> out == properties && missingOut == missing && msgs == []
      ensures env.linkInterface(target, config).Some? && env.linkInterface(target, config).value.implementationIsInterface ==>
              var libraries := env.linkInterface(target, config).value.libraries;
              var r := NamespaceAll(Cfg(), target, libraries, missing);
              && msgs == []
              && (libraries == [] ==> out == properties && missingOut == missing)
              && (libraries != [] ==> out == properties[ImportedLibrariesKey + suffix := Join(r.names, ";")] && missingOut == r.missing)
      ensures env.linkInterface(target, config).Some? && !env.linkInterface(target, config).value.implementationIsInterface ==>
              var content := LinkInterfaceContent(target, suffix);
              var refused := NewLinkInterfaceBehavior(target.cmp0022) && !exportOld;
              && (content.None? ==> out == properties && missingOut == missing && msgs == [])
              && (content.Some? && refused ==> out == properties && missingOut == missing && msgs == [FatalError])
              && (content == Some("") && !refused ==> out == properties[ImportedLibrariesKey + suffix := ""] && missingOut == missing && msgs == [])
              && (content.Some? && content.value != "" && !refused ==>
                    var prepro := env.preprocess(content.value, rule, false);
                    var r := ResolveValue(Cfg(), target, prepro, missing, true);
                    && (prepro == "" ==> out == properties && missingOut == missing && msgs == [])
                    && (prepro != "" ==> out == properties[ImportedLibrariesKey + suffix := r.text] && missingOut == r.missing && msgs == r.msgs))
    {
      out, missingOut, msgs := properties, missing, [];
      var iface := env.linkInterface(target, config);
      if iface.None? {
        return;
      }
      if iface.value.implementationIsInterface {
        out, missingOut := SetImportLinkProperty(suffix, target, ImportedLibrariesKey, iface.value.libraries, out, missingOut);
        return;
      }
      var propContent: string;
      var propSuffixed := GetProperty(target, LinkInterfaceLibrariesKey + suffix);
      if propSuffixed.Some? {
        propContent := propSuffixed.value;
      } else {
        var prop := GetProperty(target, LinkInterfaceLibrariesKey);
        if prop.Some? {
          propContent := prop.value;
        } else {
          return;
        }
      }
      var newCMP0022Behavior := target.cmp0022 != WARN && target.cmp0022 != OLD;
      if newCMP0022Behavior && !exportOld {
        msgs := [FatalError];
        return;
      }
      if propContent == "" {
        out := out[ImportedLibrariesKey + suffix := ""];
        return;
      }
      var prepro := env.preprocess(propContent, rule, false);
      if prepro != "" {
        prepro, missingOut, msgs := ResolveTargetsInGeneratorExpressions(prepro, target, missingOut, true);
        out := out[ImportedLibrariesKey + suffix := prepro];
      }
    }

    /**
      `GenerateInterfaceProperties(target, os, properties)`: nothing for no
      properties, else a `set_target_properties` block for the namespaced
      export name listing every property in key order.
     */
    method GenerateInterfaceProperties(target: Target, properties: ImportPropertyMap) returns (text: string)
      ensures text == InterfacePropertiesCode(namespace + target.exportName, properties)
    {
      text := "";
      if |properties| != 0 {
        var targetName := namespace + target.exportName;
        var lines := WritePropertyLines(properties);
        text := "set_target_properties(" + targetName + " PROPERTIES\n" + lines + ")\n\n";
      }
    }

    /**
      `GenerateImportTargetCode(os, target)`: the statement creating the
      imported target, then a line for each of its flags that is set.
     */
    method GenerateImportTargetCode(target: Target) returns (text: string)
      ensures text == ImportTargetCode(target, namespace + target.exportName)
    {
      var targetName := namespace + target.exportName;
      text := "# Create imported target " + targetName + "\n";
      text := text + AddCommand(target.kind, targetName);
      if target.executableWithExports {
        text := text + FlagLine(true, targetName, "ENABLE_EXPORTS");
      } else {
        assert text + FlagLine(false, targetName, "ENABLE_EXPORTS") == text;
      }
      if target.frameworkOnApple {
        text := text + FlagLine(true, targetName, "FRAMEWORK");
      } else {
        assert text + FlagLine(false, targetName, "FRAMEWORK") == text;
      }
      if target.appBundleOnApple {
        text := text + FlagLine(true, targetName, "MACOSX_BUNDLE");
      } else {
        assert text + FlagLine(false, targetName, "MACOSX_BUNDLE") == text;
      }
      if target.cfBundleOnApple {
        text := text + FlagLine(true, targetName, "BUNDLE");
      } else {
        assert text + FlagLine(false, targetName, "BUNDLE") == text;
      }
      text := text + "\n";
    }

    /**
      `GenerateImportPropertyCode(os, config, target, properties)`: the
      configuration is added to `IMPORTED_CONFIGURATIONS` under the label
      its property suffix carries, then every property is set in key order.
     */
    method GenerateImportPropertyCode(config: string, target: Target, properties: ImportPropertyMap) returns (text: string)
      ensures text == ImportPropertyCode(namespace + target.exportName, config, properties)
    {
      var targetName := namespace + target.exportName;
      text := "# Import target \"" + targetName + "\" for configuration \"" + config + "\"\n";
      text := text + "set_property(TARGET " + targetName + " APPEND PROPERTY IMPORTED_CONFIGURATIONS ";
      if config != [] {
        text := text + Upper(config);
      } else {
        text := text + "NOCONFIG";
      }
      text := text + ")\n";
      text := text + "set_target_properties(" + targetName + " PROPERTIES\n";
      var lines := WritePropertyLines(properties);
      text := text + lines;
      text := text + "  )\n\n";
    }

    /**
      `GenerateMissingTargetsCheckCode(os, missingTargets)`: a comment when
      no target of another export set is referenced; otherwise a check
      that lists each referenced target once, skipping names already
      emitted.
     */
    method GenerateMissingTargetsCheckCode(missing: seq<string>) returns (text: string)
      ensures text == MissingTargetsCheckCode(missing)
    {
      if missing == [] {
        text := NoOtherExportSets;
        return;
      }
      var items := "";
      var emitted: set<string> := {};
      for i := 0 to |missing|
        invariant forall x :: x in emitted <==> x in missing[..i]
        invariant items == QuotedItems(Dedup(missing[..i]))
      {
        DedupStep(missing, i);
        if missing[i] !in emitted {
          emitted := emitted + {missing[i]};
          QuotedItemsSnoc(Dedup(missing[..i]), missing[i]);
          items := items + "\"" + missing[i] + "\" ";
        }
      }
      assert missing[..|missing|] == missing;
      text := MissingCheckHead + items + MissingCheckTail;
    }

    /**
      `GenerateImportedFileChecksCode(os, target, properties,
      importedLocations)`: the target joins the targets to check, with the
      file of each imported location it has a property for.
     */
    method GenerateImportedFileChecksCode(target: Target, properties: ImportPropertyMap, importedLocations: set<string>)
      returns (text: string)
      ensures text == ImportedFileChecksCode(namespace + target.exportName, properties, importedLocations)
    {
      var targetName := namespace + target.exportName;
      var items := WriteFileItems(properties, importedLocations);
      text := "list(APPEND _IMPORT_CHECK_TARGETS " + targetName + " )\n"
              + "list(APPEND _IMPORT_CHECK_FILES_FOR_" + targetName + " " + items + ")\n\n";
    }
  }
}
