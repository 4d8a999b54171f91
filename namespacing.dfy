/**
  `cmExportFileGenerator::AddTargetNamespace`: turning a reference to a target
  into the name consumers of the export file know it by.
 */
module Namespacing {
  import opened Wrappers
  import opened BuildModel

  /**
    The generator's own settings for one pass: its `Namespace`, the names of
    its `ExportedTargets`, its `ExportOld` flag, and the collaborators.
   */
  datatype Config = Config(namespace: string, exportedTargets: set<string>, exportOld: bool, env: Env)

  /** The boolean result of `AddTargetNamespace`, its in/out name and its in/out missing-targets list. */
  datatype Namespaced = Namespaced(found: bool, name: string, missing: seq<string>)

  /** The target a name refers to, when it is neither unknown nor imported and lies outside the export set. */
  predicate OutsideExportSet(c: Config, t: Target)
  {
    !t.imported && t.name !in c.exportedTargets
  }

  /**
    Rewrites the reference `input` made by `target`. Unknown names are not
    target references and stay as they are (`found` is false); imported
    targets stay as they are; targets of this export set become
    `Namespace + ExportName`; any other target is handed to the
    `HandleMissingTarget` hook, whose result replaces the name only when it is
    non-empty and whose recorded names are appended to `missing`.
   */
  function AddTargetNamespace(c: Config, input: string, target: Target, missing: seq<string>): (r: Namespaced)
    ensures r.found <==> c.env.findTarget(input).Some?
    ensures !r.found ==> r.name == input && r.missing == missing
    ensures r.found && c.env.findTarget(input).value.imported ==> r.name == input && r.missing == missing
    ensures r.found && !c.env.findTarget(input).value.imported
            && c.env.findTarget(input).value.name in c.exportedTargets
            ==> r.name == c.namespace + c.env.findTarget(input).value.exportName && r.missing == missing
    ensures r.found && OutsideExportSet(c, c.env.findTarget(input).value)
            ==> var h := c.env.handleMissingTarget(target, c.env.findTarget(input).value);
                r.missing == missing + h.recorded
                && r.name == (if h.replacement != "" then h.replacement else input)
    ensures missing <= r.missing
  {
    match c.env.findTarget(input)
    case None => Namespaced(false, input, missing)
    case Some(tgt) =>
      if tgt.imported then Namespaced(true, input, missing)
      else if tgt.name in c.exportedTargets then Namespaced(true, c.namespace + tgt.exportName, missing)
      else
        var h := c.env.handleMissingTarget(target, tgt);
        Namespaced(true, if h.replacement != "" then h.replacement else input, missing + h.recorded)
  }

  /** The rewritten name never depends on what the missing-targets list already holds. */
  lemma NameIndependentOfMissing(c: Config, input: string, target: Target, m1: seq<string>, m2: seq<string>)
    ensures AddTargetNamespace(c, input, target, m1).name == AddTargetNamespace(c, input, target, m2).name
    ensures AddTargetNamespace(c, input, target, m1).found == AddTargetNamespace(c, input, target, m2).found
    ensures AddTargetNamespace(c, input, target, m1).missing == m1 + AddTargetNamespace(c, input, target, []).missing
  {
  }

  /**
    The names the generator produces are not themselves references to targets
    that would be rewritten again: namespaced names and hook results are
    unknown to the build description or name imported targets.
   */
  ghost predicate StableNames(c: Config)
  {
    && (forall n :: c.env.findTarget(n).Some? ==> Settled(c, c.namespace + c.env.findTarget(n).value.exportName))
    && (forall d, t :: c.env.handleMissingTarget(d, t).replacement != "" ==> Settled(c, c.env.handleMissingTarget(d, t).replacement))
  }

  /** `n` is left as it is by `AddTargetNamespace`. */
  ghost predicate Settled(c: Config, n: string)
  {
    c.env.findTarget(n).None? || c.env.findTarget(n).value.imported
  }

  /**
    Namespacing a bare reference twice gives the same name as namespacing it
    once, when the produced names are stable. (The missing-targets list can
    grow again on the second call, when the hook leaves the name as it is;
    the emitted existence check collapses such repeats.)
   */
  lemma AddTargetNamespaceIdempotent(c: Config, input: string, target: Target, missing: seq<string>)
    requires StableNames(c)
    ensures var r := AddTargetNamespace(c, input, target, missing);
            AddTargetNamespace(c, r.name, target, r.missing).name == r.name
  {
    var r := AddTargetNamespace(c, input, target, missing);
    match c.env.findTarget(input)
    case None =>
    case Some(tgt) =>
      if !tgt.imported && tgt.name in c.exportedTargets {
        assert Settled(c, c.namespace + c.env.findTarget(input).value.exportName);
      } else if !tgt.imported {
        var h := c.env.handleMissingTarget(target, tgt);
        if h.replacement != "" {
          assert Settled(c, h.replacement);
        }
      }
  }

  /** The names of a list of references, in order, and the missing-targets list after them. */
  datatype NamespacedList = NamespacedList(names: seq<string>, missing: seq<string>)

  /**
    `AddTargetNamespace` applied to every entry in order, each call seeing
    the missing-targets list the earlier ones left: one name per entry, and
    the list only grows.
   */
  function NamespaceAll(c: Config, target: Target, entries: seq<string>, missing: seq<string>): (r: NamespacedList)
    ensures |r.names| == |entries|
    ensures missing <= r.missing
  {
    if entries == [] then NamespacedList([], missing)
    else
      var front := NamespaceAll(c, target, entries[..|entries| - 1], missing);
      var a := AddTargetNamespace(c, entries[|entries| - 1], target, front.missing);
      NamespacedList(front.names + [a.name], a.missing)
  }

  /**
    Each name is the namespaced form of its entry, the same whatever the
    missing-targets list held before it.
   */
  lemma {:induction false} NamespaceAllNames(c: Config, target: Target, entries: seq<string>, missing: seq<string>, i: nat)
    requires i < |entries|
    ensures NamespaceAll(c, target, entries, missing).names[i] == AddTargetNamespace(c, entries[i], target, []).name
    decreases |entries|
  {
    var front := entries[..|entries| - 1];
    var m := NamespaceAll(c, target, front, missing).missing;
    if i < |front| {
      NamespaceAllNames(c, target, front, missing, i);
      assert entries[i] == front[i];
    } else {
      NameIndependentOfMissing(c, entries[i], target, m, []);
    }
  }

  /** Namespacing one more entry appends its name. */
  lemma {:induction false} NamespaceAllSnoc(c: Config, target: Target, entries: seq<string>, i: nat, missing: seq<string>)
    requires i < |entries|
    ensures var r := NamespaceAll(c, target, entries[..i], missing);
            var a := AddTargetNamespace(c, entries[i], target, r.missing);
            NamespaceAll(c, target, entries[..i + 1], missing) == NamespacedList(r.names + [a.name], a.missing)
  {
    assert entries[..i + 1][..i] == entries[..i];
  }
}
