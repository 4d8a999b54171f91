/**
  `ResolveTargetsInGeneratorExpressions` with `ReplaceFreeTargets`: the
  value is split into its `;`-list entries; an entry that holds no
  generator expression is a bare target reference and is namespaced as a
  whole, every other entry is resolved as a generator expression; the
  entries are joined again with `;`.
 */
module FreeTargets {
  import opened Wrappers
  import opened Text
  import opened BuildModel
  import opened Namespacing
  import opened Resolver

  /** The resolved entries, the missing-targets list after them, and the messages issued on the way. */
  datatype Entries = Entries(items: seq<string>, missing: seq<string>, msgs: seq<Severity>)

  /** One entry resolved, with the list it extends. */
  ghost function ResolveEntry(c: Config, target: Target, part: string, missing: seq<string>): Entries
  {
    if c.env.findGenex(part).None? then
      var a := AddTargetNamespace(c, part, target, missing);
      Entries([a.name], a.missing, [])
    else
      var r := ResolveExpression(c, target, part, missing);
      Entries([r.text], r.missing, if r.error.Some? then [FatalError] else [])
  }

  /** The entries `parts` resolved in order, each seeing the missing-targets list the earlier ones left. */
  ghost function ResolveEntries(c: Config, target: Target, parts: seq<string>, missing: seq<string>): Entries
  {
    if parts == [] then Entries([], missing, [])
    else
      var r := ResolveEntries(c, target, parts[..|parts| - 1], missing);
      var e := ResolveEntry(c, target, parts[|parts| - 1], r.missing);
      Entries(r.items + e.items, e.missing, r.msgs + e.msgs)
  }

  /** A part holds a generator expression. */
  predicate HasGenex(c: Config, part: string)
  {
    c.env.findGenex(part).Some?
  }

  /**
    One entry yields one resolved entry and at most one message; without a
    generator expression it is its namespaced name, whatever the list held
    before, and issues nothing; the missing-targets list only grows.
   */
  lemma ResolveEntryFacts(c: Config, target: Target, part: string, missing: seq<string>)
    ensures var e := ResolveEntry(c, target, part, missing);
            && |e.items| == 1
            && |e.msgs| <= 1
            && missing <= e.missing
            && (!HasGenex(c, part) ==> e.items[0] == AddTargetNamespace(c, part, target, []).name && e.msgs == [])
  {
    NameIndependentOfMissing(c, part, target, missing, []);
    ResolveExpressionGrows(c, target, part, missing);
  }

  /**
    Every entry yields exactly one resolved entry, and at most one message;
    the missing-targets list only grows.
   */
  lemma {:induction false} ResolveEntriesCount(c: Config, target: Target, parts: seq<string>, missing: seq<string>)
    ensures var r := ResolveEntries(c, target, parts, missing);
            |r.items| == |parts| && |r.msgs| <= |parts| && missing <= r.missing
    decreases |parts|
  {
    if parts != [] {
      var front := parts[..|parts| - 1];
      ResolveEntriesCount(c, target, front, missing);
      ResolveEntryFacts(c, target, parts[|parts| - 1], ResolveEntries(c, target, front, missing).missing);
    }
  }

  /**
    An entry without a generator expression becomes its namespaced name,
    whatever the entries before it recorded as missing.
   */
  lemma {:induction false} ResolveEntriesPlain(c: Config, target: Target, parts: seq<string>, missing: seq<string>, i: nat)
    requires i < |parts| && !HasGenex(c, parts[i])
    ensures |ResolveEntries(c, target, parts, missing).items| == |parts|
    ensures ResolveEntries(c, target, parts, missing).items[i] == AddTargetNamespace(c, parts[i], target, []).name
    decreases |parts|
  {
    var front := parts[..|parts| - 1];
    var r0 := ResolveEntries(c, target, front, missing);
    ResolveEntriesCount(c, target, parts, missing);
    ResolveEntriesCount(c, target, front, missing);
    ResolveEntryFacts(c, target, parts[|parts| - 1], r0.missing);
    if i < |front| {
      assert parts[i] == front[i];
      ResolveEntriesPlain(c, target, front, missing, i);
    }
  }

  /** A list without generator expressions issues no message. */
  lemma {:induction false} ResolveEntriesQuiet(c: Config, target: Target, parts: seq<string>, missing: seq<string>)
    requires forall i :: 0 <= i < |parts| ==> !HasGenex(c, parts[i])
    ensures ResolveEntries(c, target, parts, missing).msgs == []
    decreases |parts|
  {
    if parts != [] {
      var front := parts[..|parts| - 1];
      assert forall i :: 0 <= i < |front| ==> front[i] == parts[i];
      ResolveEntriesQuiet(c, target, front, missing);
      ResolveEntryFacts(c, target, parts[|parts| - 1], ResolveEntries(c, target, front, missing).missing);
    }
  }

  /** Resolving one more entry appends it. */
  lemma {:induction false} ResolveEntriesSnoc(c: Config, target: Target, parts: seq<string>, i: nat, missing: seq<string>)
    requires i < |parts|
    ensures var r := ResolveEntries(c, target, parts[..i], missing);
            var e := ResolveEntry(c, target, parts[i], r.missing);
            ResolveEntries(c, target, parts[..i + 1], missing) == Entries(r.items + e.items, e.missing, r.msgs + e.msgs)
  {
    assert parts[..i + 1][..i] == parts[..i];
  }

  /** The resolved value, the missing-targets list after it, and the messages issued. */
  datatype Outcome = Outcome(text: string, missing: seq<string>, msgs: seq<Severity>)

  /**
    What `ResolveTargetsInGeneratorExpressions` makes of `input`: with
    `replaceFree` unset, the value resolved as one generator expression,
    with one fatal error when that scan stopped on an error; with
    `replaceFree` set, its entries resolved one by one and joined with `;`.
   */
  ghost function ResolveValue(c: Config, target: Target, input: string, missing: seq<string>, replaceFree: bool): Outcome
  {
    if !replaceFree then
      var r := ResolveExpression(c, target, input, missing);
      Outcome(r.text, r.missing, if r.error.Some? then [FatalError] else [])
    else
      var r := ResolveEntries(c, target, c.env.split(input), missing);
      Outcome(Join(r.items, ";"), r.missing, r.msgs)
  }

  /** Either way the missing-targets list only grows. */
  lemma ResolveValueGrows(c: Config, target: Target, input: string, missing: seq<string>, replaceFree: bool)
    ensures missing <= ResolveValue(c, target, input, missing, replaceFree).missing
  {
    if replaceFree {
      ResolveEntriesCount(c, target, c.env.split(input), missing);
    } else {
      ResolveExpressionGrows(c, target, input, missing);
    }
  }
}
