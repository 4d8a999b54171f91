/**
  Where the `$<TARGET_NAME:` loop of `ResolveTargetsInGeneratorExpression`
  goes on after a replacement. The loop searches again from the index the
  `>` of the replaced construct had before the replacement. When the
  resolved name is shorter than the construct, that index lies past the
  end of the name, inside the text that follows, and a construct starting
  in between is never looked at: it is neither replaced nor reported.

  `NameRewrite` (in `Resolver`) is the scan as written, which the generator
  loop is proved equal to; `ResumedNameRewrite` below is the scan that goes
  on right after the name, which replaces every construct it reaches.
 */
module NameResume {
  import opened Wrappers
  import opened Text
  import opened BuildModel
  import opened Namespacing
  import opened Resolver

  /**
    A text that starts with a complete construct `open + arg + ">"` whose
    argument is literal and names a reachable target: the scan replaces that
    construct first.
   */
  lemma {:induction false} LeadingConstruct(c: Config, target: Target, open: Opening, arg: string, tail: string, missing: seq<string>)
    requires forall q :: 0 <= q < |arg| ==> arg[q] != '>'
    requires !Contains(arg, "$<")
    requires AddTargetNamespace(c, arg, target, missing).found
    ensures NameDecision(c, target, open, open + arg + ">" + tail, 0, missing)
            == Substitute(0, |open| + |arg|, AddTargetNamespace(c, arg, target, missing))
  {
    LeadingFinds(open, arg, tail);
  }

  /** Where the searches of the scan stop in `open + arg + ">" + tail`. */
  lemma {:induction false} LeadingFinds(open: Opening, arg: string, tail: string)
    requires forall q :: 0 <= q < |arg| ==> arg[q] != '>'
    ensures var s := open + arg + ">" + tail;
            && Find(s, open, 0) == Some(0)
            && Find(s, ">", |open|) == Some(|open| + |arg|)
            && s[|open|..|open| + |arg|] == arg
  {
    var s := open + arg + ">" + tail;
    var n := |open|;
    var head := open + arg;
    assert s[..n + |arg|] == head && head[..n] == open && head[n..] == arg;
    assert s[..n] == open by {
      assert s[..n] == s[..n + |arg|][..n];
    }
    FindFirst(s, open, 0, 0);
    forall q | n <= q < n + |arg|
      ensures !MatchAt(s, ">", q)
    {
      assert s[q] == arg[q - n];
      assert s[q..q + 1] == [s[q]];
    }
    assert s[n + |arg|..n + |arg| + 1] == ">";
    FindFirst(s, ">", n, n + |arg|);
    assert s[n..n + |arg|] == s[..n + |arg|][n..];
  }

  /**
    As written: `open + "a>"` followed by `open + "b>"`, both literal and
    reachable, with `a` resolving to the one-character name `x`. After the
    first replacement the scan resumes `|open|` characters into the second
    construct, finds no opening after that, and stops without an error: the
    result still holds the complete construct for `b` at index 1.
   */
  lemma {:induction false} AdjacentConstructSkipped(c: Config, target: Target, open: Opening)
    requires |open| > 2
    requires AddTargetNamespace(c, "a", target, []) == Namespaced(true, "x", [])
    requires AddTargetNamespace(c, "b", target, []).found
    ensures var r := NameRewrite(c, target, open, open + "a>" + (open + "b>"), []);
            && r == Resolved("x" + (open + "b>"), [], None)
            && MatchAt(r.text, open, 1)
  {
    var n := |open|;
    var s := open + "a>" + (open + "b>");
    var a := Namespaced(true, "x", []);
    LeadingA(c, target, open, a);
    NameUnfold(c, target, open, s, [], 0, n + 1, a);
    var rest := s[n + 2..];
    assert rest == open + "b>";
    var d := SkipCount(n + 1, 1, |rest|);
    assert d == n;
    assert rest[..d] == open && rest[d..] == "b>";
    assert NameDecision(c, target, open, "b>", 0, []) == Stop(None);
    StopUnfold(c, target, open, "b>", []);
    var r := NameRewrite(c, target, open, rest[d..], []);
    assert r == Resolved("b>", [], None);
    var out := "x" + (open + "b>");
    assert rest[..d] + r.text == open + "b>";
    assert s[..0] == [];
    assert [] + out == out;
    assert out[1..1 + n] == open;
  }

  /** The scan replaces the leading construct `open + "a>"` of the text of `AdjacentConstructSkipped` first. */
  lemma {:induction false} LeadingA(c: Config, target: Target, open: Opening, a: Namespaced)
    requires AddTargetNamespace(c, "a", target, []) == a && a.found
    ensures NameDecision(c, target, open, open + "a>" + (open + "b>"), 0, []) == Substitute(0, |open| + 1, a)
  {
    var s := open + "a>" + (open + "b>");
    assert s == open + "a" + ">" + (open + "b>");
    assert forall q :: 0 <= q < |"a"| ==> "a"[q] != '>';
    LeadingConstruct(c, target, open, "a", open + "b>", []);
  }

  /** The same input with the generator's own opening `$<TARGET_NAME:`. */
  lemma TargetNameConstructSkipped(c: Config, target: Target)
    requires AddTargetNamespace(c, "a", target, []) == Namespaced(true, "x", [])
    requires AddTargetNamespace(c, "b", target, []).found
    ensures NameRewrite(c, target, TargetNameOpen, TargetNameOpen + "a>" + (TargetNameOpen + "b>"), [])
            == Resolved("x" + (TargetNameOpen + "b>"), [], None)
  {
    AdjacentConstructSkipped(c, target, TargetNameOpen);
  }

  /**
    The `$<TARGET_NAME:` scan as intended: after a replacement, the search
    goes on right after the name, that is, with the text after the replaced
    construct.
   */
  ghost function ResumedNameRewrite(c: Config, target: Target, open: Opening, s: string, missing: seq<string>): Resolved
    decreases |s|
  {
    match NameDecision(c, target, open, s, 0, missing)
    case Stop(e) => Resolved(s, missing, e)
    case Substitute(pos, endPos, a) =>
      var r := ResumedNameRewrite(c, target, open, s[endPos + 1..], a.missing);
      Resolved(s[..pos] + (a.name + r.text), r.missing, r.error)
  }

  /** The pieces `ResumedNameRewrite` cuts `s` into: the skipped piece after each replacement is empty. */
  ghost function ResumedNamePieces(c: Config, target: Target, open: Opening, s: string, missing: seq<string>): seq<Piece>
    decreases |s|
  {
    match NameDecision(c, target, open, s, 0, missing)
    case Stop(_) => [Kept(s)]
    case Substitute(pos, endPos, a) =>
      Prepended(s, pos, endPos, a.name, 0, ResumedNamePieces(c, target, open, s[endPos + 1..], a.missing))
  }

  /** No text is passed over: every skipped piece is empty. */
  ghost predicate NothingSkipped(ps: seq<Piece>)
  {
    forall i :: 0 <= i < |ps| && ps[i].Skipped? ==> ps[i].text == []
  }

  /**
    The intended scan is sound as the scan as written is, overlooks no
    construct, and passes over no text: every opening of the input starts a
    replaced construct, lies inside one, or lies in the last piece, where
    the scan stopped for the reason it reports (no reason only when that
    piece holds no opening).
   */
  lemma ResumedNameRewriteComplete(c: Config, target: Target, open: Opening, s: string, missing: seq<string>)
    ensures var ps := ResumedNamePieces(c, target, open, s, missing);
            && SoundNames(c, target, open, s, missing, ps, ResumedNameRewrite(c, target, open, s, missing))
            && NoneOverlooked(open, ps)
            && NothingSkipped(ps)
  {
    ResumedSound(c, target, open, s, missing);
    ResumedOverlooksNothing(c, target, open, s, missing);
    ResumedSkipsNothing(c, target, open, s, missing);
  }

  lemma {:induction false} ResumedSound(c: Config, target: Target, open: Opening, s: string, missing: seq<string>)
    ensures SoundNames(c, target, open, s, missing, ResumedNamePieces(c, target, open, s, missing), ResumedNameRewrite(c, target, open, s, missing))
    decreases |s|
  {
    match NameDecision(c, target, open, s, 0, missing)
    case Stop(e) =>
      assert ResumedNamePieces(c, target, open, s, missing) == [Kept(s)];
      PiecesCons(Kept(s), []);
      assert [Kept(s)] + [] == [Kept(s)];
    case Substitute(pos, endPos, a) =>
      var rest := s[endPos + 1..];
      var ps := ResumedNamePieces(c, target, open, rest, a.missing);
      var r := ResumedNameRewrite(c, target, open, rest, a.missing);
      assert ResumedNamePieces(c, target, open, s, missing) == Prepended(s, pos, endPos, a.name, 0, ps);
      assert ResumedNameRewrite(c, target, open, s, missing) == Resolved(s[..pos] + (a.name + r.text), r.missing, r.error);
      ResumedSound(c, target, open, rest, a.missing);
      assert rest[0..] == rest && rest[..0] + r.text == r.text;
      ReplacementFound(c, target, open, s, missing, pos, endPos, a);
      ReplacedStep(c, target, open, s, missing, pos, endPos, a.name, 0, a.missing, ps, r);
  }

  lemma {:induction false} ResumedOverlooksNothing(c: Config, target: Target, open: Opening, s: string, missing: seq<string>)
    ensures NoneOverlooked(open, ResumedNamePieces(c, target, open, s, missing))
    decreases |s|
  {
    match NameDecision(c, target, open, s, 0, missing)
    case Stop(_) =>
      assert ResumedNamePieces(c, target, open, s, missing) == [Kept(s)];
    case Substitute(pos, endPos, a) =>
      var ps := ResumedNamePieces(c, target, open, s[endPos + 1..], a.missing);
      assert ResumedNamePieces(c, target, open, s, missing) == Prepended(s, pos, endPos, a.name, 0, ps);
      ResumedOverlooksNothing(c, target, open, s[endPos + 1..], a.missing);
      FirstConstructReplaced(c, target, open, s, missing);
      PrependedOverlooksNothing(open, s, pos, endPos, a.name, 0, ps);
  }

  lemma {:induction false} ResumedSkipsNothing(c: Config, target: Target, open: Opening, s: string, missing: seq<string>)
    ensures NothingSkipped(ResumedNamePieces(c, target, open, s, missing))
    decreases |s|
  {
    match NameDecision(c, target, open, s, 0, missing)
    case Stop(_) =>
      assert ResumedNamePieces(c, target, open, s, missing) == [Kept(s)];
    case Substitute(pos, endPos, a) =>
      var ps := ResumedNamePieces(c, target, open, s[endPos + 1..], a.missing);
      assert ResumedNamePieces(c, target, open, s, missing) == Prepended(s, pos, endPos, a.name, 0, ps);
      ResumedSkipsNothing(c, target, open, s[endPos + 1..], a.missing);
      EmptySkipCons(s, pos, endPos, a.name, ps);
  }

  /** Putting a construct and an empty skipped piece in front of pieces that pass over nothing. */
  lemma {:induction false} EmptySkipCons(s: string, pos: nat, endPos: nat, name: string, ps: seq<Piece>)
    requires pos <= endPos < |s|
    requires NothingSkipped(ps)
    ensures NothingSkipped(Prepended(s, pos, endPos, name, 0, ps))
  {
    var all := Prepended(s, pos, endPos, name, 0, ps);
    forall i | 0 <= i < |all| && all[i].Skipped?
      ensures all[i].text == []
    {
      if i >= 3 {
        assert all[i] == ps[i - 3];
      }
    }
  }

  /**
    The same input as `AdjacentConstructSkipped`, scanned as intended: both
    constructs are replaced.
   */
  lemma {:induction false} AdjacentConstructsReplaced(c: Config, target: Target, open: Opening)
    requires AddTargetNamespace(c, "a", target, []) == Namespaced(true, "x", [])
    requires AddTargetNamespace(c, "b", target, []) == Namespaced(true, "y", [])
    ensures ResumedNameRewrite(c, target, open, open + "a>" + (open + "b>"), []) == Resolved("xy", [], None)
  {
    var n := |open|;
    var s := open + "a>" + (open + "b>");
    LeadingA(c, target, open, Namespaced(true, "x", []));
    ResumedUnfold(c, target, open, s, [], 0, n + 1, Namespaced(true, "x", []));
    assert s[n + 2..] == open + "b>";
    AdjacentLast(c, target, open);
  }

  /**
    The scan as written never passes over text: at every construct it
    replaces, the name is at least as long as the construct before its `>`,
    or nothing follows the construct.
   */
  ghost predicate NeverSkips(c: Config, target: Target, open: Opening, s: string, missing: seq<string>)
    decreases |s|
  {
    match NameDecision(c, target, open, s, 0, missing)
    case Stop(_) => true
    case Substitute(pos, endPos, a) =>
      && SkipCount(endPos - pos, |a.name|, |s| - endPos - 1) == 0
      && NeverSkips(c, target, open, s[endPos + 1..], a.missing)
  }

  /** When the scan as written passes over no text, it computes what the intended scan computes. */
  lemma {:induction false} NameRewriteAgrees(c: Config, target: Target, open: Opening, s: string, missing: seq<string>)
    requires NeverSkips(c, target, open, s, missing)
    ensures NameRewrite(c, target, open, s, missing) == ResumedNameRewrite(c, target, open, s, missing)
    decreases |s|
  {
    match NameDecision(c, target, open, s, 0, missing)
    case Stop(_) =>
      StopUnfold(c, target, open, s, missing);
    case Substitute(pos, endPos, a) =>
      var rest := s[endPos + 1..];
      NeverSkipsUnfold(c, target, open, s, missing, pos, endPos, a);
      var d := SkipCount(endPos - pos, |a.name|, |rest|);
      assert d == 0 && rest[d..] == rest;
      var r := NameRewrite(c, target, open, rest, a.missing);
      assert rest[..d] + r.text == r.text;
      NameRewriteAgrees(c, target, open, rest, a.missing);
      NameUnfold(c, target, open, s, missing, pos, endPos, a);
      assert NameRewrite(c, target, open, s, missing) == Resolved(s[..pos] + (a.name + r.text), r.missing, r.error);
      ResumedUnfold(c, target, open, s, missing, pos, endPos, a);
  }

  /** `NeverSkips` at a construct the scan replaces. */
  lemma {:induction false} NeverSkipsUnfold(c: Config, target: Target, open: Opening, s: string, missing: seq<string>,
                                            pos: nat, endPos: nat, a: Namespaced)
    requires NameDecision(c, target, open, s, 0, missing) == Substitute(pos, endPos, a)
    requires NeverSkips(c, target, open, s, missing)
    ensures endPos < |s|
    ensures SkipCount(endPos - pos, |a.name|, |s[endPos + 1..]|) == 0
    ensures NeverSkips(c, target, open, s[endPos + 1..], a.missing)
  {
  }

  /** Where the scan stops, both scans leave the text as it is. */
  lemma {:induction false} StopUnfold(c: Config, target: Target, open: Opening, s: string, missing: seq<string>)
    requires NameDecision(c, target, open, s, 0, missing).Stop?
    ensures var e := NameDecision(c, target, open, s, 0, missing).error;
            && NameRewrite(c, target, open, s, missing) == Resolved(s, missing, e)
            && ResumedNameRewrite(c, target, open, s, missing) == Resolved(s, missing, e)
  {
  }

  /**
    The intended scan is not idempotent, even when every produced name is stable: a
    name can complete an opening that starts in the text before it. Here
    `open` is cut into `u + name + v`; the first scan of
    `u + open + "a>" + v + "b>"` replaces the inner construct by `name` and
    leaves `open + "b>"`, which the second scan replaces by `y`.
   */
  lemma {:induction false} ResumedNotIdempotent(c: Config, target: Target, open: Opening, k: nat, j: nat)
    requires 0 < k <= j < |open| && |open| - j + 2 < |open|
    requires open[k] != '$' && forall q :: 0 < q < k ==> open[q] != '$'
    requires AddTargetNamespace(c, "a", target, []) == Namespaced(true, open[k..j], [])
    requires AddTargetNamespace(c, "b", target, []) == Namespaced(true, "y", [])
    ensures var once := ResumedNameRewrite(c, target, open, open[..k] + (open + "a>") + (open[j..] + "b>"), []);
            && once == Resolved(open + "b>", [], None)
            && ResumedNameRewrite(c, target, open, once.text, []) == Resolved("y", [], None)
  {
    var n := |open|;
    var u, v := open[..k], open[j..];
    var s := u + (open + "a>") + (v + "b>");
    var a := Namespaced(true, open[k..j], []);
    StraddleText(open, k, j);
    StraddleDecision(c, target, open, k, j);
    ResumedUnfold(c, target, open, s, [], k, k + n + 1, a);
    assert NameDecision(c, target, open, v + "b>", 0, []) == Stop(None);
    AdjacentLast(c, target, open);
  }

  /** The first scan of `ResumedNotIdempotent` replaces the inner construct first. */
  lemma {:induction false} StraddleDecision(c: Config, target: Target, open: Opening, k: nat, j: nat)
    requires 0 < k <= j < |open|
    requires open[k] != '$' && forall q :: 0 < q < k ==> open[q] != '$'
    requires AddTargetNamespace(c, "a", target, []) == Namespaced(true, open[k..j], [])
    ensures NameDecision(c, target, open, open[..k] + (open + "a>") + (open[j..] + "b>"), 0, [])
            == Substitute(k, k + |open| + 1, Namespaced(true, open[k..j], []))
  {
    var s := open[..k] + (open + "a>") + (open[j..] + "b>");
    var a := Namespaced(true, open[k..j], []);
    StraddleText(open, k, j);
    assert forall q :: 0 <= q < |"a"| ==> "a"[q] != '>';
    LeadingConstruct(c, target, open, "a", open[j..] + "b>", []);
    assert NameDecision(c, target, open, s[k..], 0, []) == Substitute(0, |open| + 1, a);
    NameDecisionShift(c, target, open, s, k, []);
    assert NameDecision(c, target, open, s, k, []) == Substitute(k, k + |open| + 1, a);
    FindSkip(s, open, 0, k);
    NameDecisionFrom(c, target, open, s, 0, k, []);
  }

  /** The scan decides from `from` as from `j` when the search for the opening finds the same from both. */
  lemma {:induction false} NameDecisionFrom(c: Config, target: Target, open: Opening, s: string, from: nat, j: nat, missing: seq<string>)
    requires Find(s, open, from) == Find(s, open, j)
    ensures NameDecision(c, target, open, s, from, missing) == NameDecision(c, target, open, s, j, missing)
  {
  }

  /** One unfolding of the intended scan at a construct it replaces. */
  lemma {:induction false} ResumedUnfold(c: Config, target: Target, open: Opening, s: string, missing: seq<string>,
                                         pos: nat, endPos: nat, a: Namespaced)
    requires NameDecision(c, target, open, s, 0, missing) == Substitute(pos, endPos, a)
    ensures pos <= endPos < |s|
    ensures var r := ResumedNameRewrite(c, target, open, s[endPos + 1..], a.missing);
            ResumedNameRewrite(c, target, open, s, missing) == Resolved(s[..pos] + (a.name + r.text), r.missing, r.error)
  {
  }

  /** The text of `ResumedNotIdempotent` around its inner construct, and no opening before it. */
  lemma {:induction false} StraddleText(open: Opening, k: nat, j: nat)
    requires 0 < k <= j < |open|
    requires open[k] != '$' && forall q :: 0 < q < k ==> open[q] != '$'
    ensures var s := open[..k] + (open + "a>") + (open[j..] + "b>");
            && s[k..] == open + "a" + ">" + (open[j..] + "b>")
            && s[k + |open| + 2..] == open[j..] + "b>"
            && s[..k] + (open[k..j] + (open[j..] + "b>")) == open + "b>"
            && forall q :: 0 <= q < k ==> !MatchAt(s, open, q)
  {
    var n := |open|;
    var s := open[..k] + (open + "a>") + (open[j..] + "b>");
    assert s[k..] == open + "a" + ">" + (open[j..] + "b>");
    assert open[..k] + open[k..j] + open[j..] == open;
    forall q | 0 <= q < k
      ensures !MatchAt(s, open, q)
    {
      if q == 0 {
        assert s[k] == '$';
        assert s[q..q + n][k] != open[k];
      } else {
        assert s[q] == open[q];
      }
    }
  }

  /** `open + "b>"`, with `b` resolving to `y`, scanned as intended. */
  lemma {:induction false} AdjacentLast(c: Config, target: Target, open: Opening)
    requires AddTargetNamespace(c, "b", target, []) == Namespaced(true, "y", [])
    ensures ResumedNameRewrite(c, target, open, open + "b>", []) == Resolved("y", [], None)
  {
    var n := |open|;
    var t := open + "b>";
    assert t == open + "b" + ">" + [];
    assert forall q :: 0 <= q < |"b"| ==> "b"[q] != '>';
    LeadingConstruct(c, target, open, "b", [], []);
    assert t[n + 2..] == [];
    assert NameDecision(c, target, open, [], 0, []) == Stop(None);
    assert ResumedNameRewrite(c, target, open, [], []) == Resolved([], [], None);
  }

  /** The same with the generator's own opening: `$<TARGET_` + `$<TARGET_NAME:a>` + `:b>` resolves to `$<TARGET_NAME:b>`. */
  lemma TargetNameNotIdempotent(c: Config, target: Target)
    requires AddTargetNamespace(c, "a", target, []) == Namespaced(true, "NAME", [])
    requires AddTargetNamespace(c, "b", target, []) == Namespaced(true, "y", [])
    ensures var once := ResumedNameRewrite(c, target, TargetNameOpen, "$<TARGET_" + (TargetNameOpen + "a>") + (":" + "b>"), []);
            && once.text == TargetNameOpen + "b>"
            && ResumedNameRewrite(c, target, TargetNameOpen, once.text, []).text == "y"
  {
    var open := TargetNameOpen;
    assert open[..9] == "$<TARGET_" && open[9..13] == "NAME" && open[13..] == ":";
    ResumedNotIdempotent(c, target, open, 9, 13);
  }
  /** A target of the witness configuration below: exported, not imported. */
  function WitnessTarget(name: string, exportName: string): Target
  {
    Target(name, exportName, StaticLibrary, false, true, map[], NEW, NEW, false, false, false, false)
  }

  /**
    A configuration with no namespace that exports `a` as `NAME` and `b` as
    `y` and knows no other target; its hook never replaces a name.
   */
  function WitnessConfig(): Config
  {
    Config("", {"a", "b"}, false,
      Env(n => if n == "a" then Some(WitnessTarget("a", "NAME")) else if n == "b" then Some(WitnessTarget("b", "y")) else None,
          (d, t) => MissingHook("", []),
          (t, config) => None, (t, config) => None, (t, config) => None, (t, config) => "",
          v => false, [], "", "", "",
          p => false, (p, q) => false, (p, q) => false,
          v => [], v => [], v => None, (v, ctx, rel) => v, (v, t) => (v, false)))
  }

  /**
    The configuration of `TargetNameNotIdempotent` exists with stable and
    inert names: namespacing a produced name again leaves it as it is, and
    still a second pass of the intended scan changes the text.
   */
  lemma StableNamesNotIdempotent(target: Target)
    ensures StableNames(WitnessConfig()) && InertNames(WitnessConfig(), target)
    ensures var c := WitnessConfig();
            var once := ResumedNameRewrite(c, target, TargetNameOpen, "$<TARGET_" + (TargetNameOpen + "a>") + (":" + "b>"), []);
            && once.text == TargetNameOpen + "b>"
            && ResumedNameRewrite(c, target, TargetNameOpen, once.text, []).text == "y"
  {
    WitnessNames(target);
    WitnessStable(target);
    TargetNameNotIdempotent(WitnessConfig(), target);
  }

  /** In the witness configuration `a` resolves to `NAME` and `b` to `y`. */
  lemma WitnessNames(target: Target)
    ensures AddTargetNamespace(WitnessConfig(), "a", target, []) == Namespaced(true, "NAME", [])
    ensures AddTargetNamespace(WitnessConfig(), "b", target, []) == Namespaced(true, "y", [])
  {
  }

  /** The witness configuration's names are stable and inert. */
  lemma WitnessStable(target: Target)
    ensures StableNames(WitnessConfig()) && InertNames(WitnessConfig(), target)
  {
    WitnessInert(target);
  }

  /** The witness configuration produces only `NAME` and `y`, which hold no `$`. */
  lemma WitnessInert(target: Target)
    ensures InertNames(WitnessConfig(), target)
  {
    assert Inert("NAME") && Inert("y");
  }
}
