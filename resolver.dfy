/**
  The two scans of `ResolveTargetsInGeneratorExpression`: rewriting the name
  field of every `$<TARGET_PROPERTY:name,...>` and replacing every
  `$<TARGET_NAME:name>` by the resolved name.

  Each scan has a reference definition by recursion on the text still to
  scan, without indices (`PropertyRewrite`, `NameRewrite`), proved to cut the
  input into pieces that are each kept or rewritten as the source promises
  (`PropertyRewriteSound`, `NameRewriteSound`). The loops of the generator
  class, which work with `find`, `replace` and the indices `pos` and
  `lastPos`, are proved equal to the reference definitions with the step
  lemmas at the end of each part.
 */
module Resolver {
  import opened Wrappers
  import opened Text
  import opened BuildModel
  import opened Namespacing

  const TargetPropertyOpen: Opening := "$<TARGET_PROPERTY:"
  const TargetNameOpen: Opening := "$<TARGET_NAME:"

  /**
    The opening text of a construct: it starts with `$<`. The scans below
    are stated for any opening; the generator runs them with the two
    constants above.
   */
  type Opening = s: string | |s| >= 2 && s[0] == '$' && s[1] == '<' witness "$<"

  // ---------------------------------------------------------------------------
  // $<TARGET_PROPERTY:name,...>
  // ---------------------------------------------------------------------------

  /**
    The index of the comma that ends the name field starting at `nameStart`,
    or `None` when the construct is skipped: there is no comma, no `>`, a `>`
    before the comma (the implied 'this' target), or a `$<` before the comma
    (a name that is not a literal).
   */
  function NameFieldEnd(s: string, nameStart: nat): (r: Option<nat>)
    ensures r.Some? ==> nameStart <= r.value < |s| && s[r.value] == ','
  {
    var close := Find(s, ">", nameStart);
    var comma := Find(s, ",", nameStart);
    var open := Find(s, "$<", nameStart);
    if comma.None? || close.None? || PosLess(close, comma) || PosLess(open, comma) then None
    else
      FindSpec(s, ",", nameStart);
      comma
  }

  /**
    A name field that is rewritten holds no `,`, no `>` and no `$<`: it is
    a literal name, and the comma found is the first one after the name start.
   */
  lemma {:induction false} NameFieldLiteral(s: string, nameStart: nat, comma: nat)
    requires NameFieldEnd(s, nameStart) == Some(comma)
    ensures forall q :: nameStart <= q < comma ==> s[q] != ',' && s[q] != '>'
    ensures forall q :: nameStart <= q && q + 1 < comma ==> !MatchAt(s, "$<", q)
  {
    FindSpec(s, ",", nameStart);
    FindSpec(s, ">", nameStart);
    FindSpec(s, "$<", nameStart);
    var close := Find(s, ">", nameStart);
    forall q | nameStart <= q < comma
      ensures s[q] != ',' && s[q] != '>'
    {
      assert !MatchAt(s, ",", q);
      assert q < close.value;
      assert !MatchAt(s, ">", q);
    }
  }

  /**
    A piece of the text seen by the `$<TARGET_PROPERTY:` scan: text left as
    it is, or a name field together with the text before it (which ends with
    the opening) and the comma after it; the field `from` becomes `to`.
   */
  datatype Segment =
    | Same(text: string)
    | Field(head: string, from: string, to: string)

  /** The text a segment came from. */
  function SegmentBefore(g: Segment): string
  {
    match g
    case Same(t) => t
    case Field(head, from, _) => head + (from + ",")
  }

  /** The text a segment became. */
  function SegmentAfter(g: Segment): string
  {
    match g
    case Same(t) => t
    case Field(head, _, to) => head + (to + ",")
  }

  function Original(segs: seq<Segment>): string
  {
    if segs == [] then "" else SegmentBefore(segs[0]) + Original(segs[1..])
  }

  function Rewrite(segs: seq<Segment>): string
  {
    if segs == [] then "" else SegmentAfter(segs[0]) + Rewrite(segs[1..])
  }

  /**
    A rewritten name field: it follows the opening, contains no `,`, `>` or
    `$<`, and is replaced by what `AddTargetNamespace` makes of it.
   */
  ghost predicate NameFieldRewritten(c: Config, target: Target, open: Opening, g: Segment)
    requires g.Field?
  {
    && |g.head| >= |open| && g.head[|g.head| - |open|..] == open
    && (forall q :: 0 <= q < |g.from| ==> g.from[q] != ',' && g.from[q] != '>')
    && !Contains(g.from, "$<")
    && g.to == AddTargetNamespace(c, g.from, target, []).name
  }

  /** Every rewritten piece is a name field rewritten as `NameFieldRewritten` says. */
  ghost predicate OnlyNameFields(c: Config, target: Target, open: Opening, segs: seq<Segment>)
  {
    forall i :: 0 <= i < |segs| && segs[i].Field? ==> NameFieldRewritten(c, target, open, segs[i])
  }

  lemma {:induction false} SegmentsCons(g: Segment, segs: seq<Segment>)
    ensures Original([g] + segs) == SegmentBefore(g) + Original(segs)
    ensures Rewrite([g] + segs) == SegmentAfter(g) + Rewrite(segs)
  {
    assert ([g] + segs)[0] == g;
    assert ([g] + segs)[1..] == segs;
  }

  /** Putting a segment in front keeps the rewritten pieces name fields. */
  lemma {:induction false} OnlyNameFieldsCons(c: Config, target: Target, open: Opening, g: Segment, segs: seq<Segment>)
    requires g.Field? ==> NameFieldRewritten(c, target, open, g)
    requires OnlyNameFields(c, target, open, segs)
    ensures OnlyNameFields(c, target, open, [g] + segs)
  {
    var all := [g] + segs;
    forall i | 0 <= i < |all| && all[i].Field?
      ensures NameFieldRewritten(c, target, open, all[i])
    {
      if i > 0 {
        assert all[i] == segs[i - 1];
      }
    }
  }

  /** What the scan knows about a name field it rewrites. */
  lemma {:induction false} NameFieldFacts(open: Opening, s: string, pos: nat, comma: nat)
    requires MatchAt(s, open, pos)
    requires NameFieldEnd(s, pos + |open|) == Some(comma)
    ensures var nameStart := pos + |open|;
            var field := s[nameStart..comma];
            && s == s[..nameStart] + (field + ("," + s[comma + 1..]))
            && s[..nameStart][nameStart - |open|..] == open
            && (forall q :: 0 <= q < |field| ==> field[q] != ',' && field[q] != '>')
            && !Contains(field, "$<")
  {
    var nameStart := pos + |open|;
    SplitAtComma(s, nameStart, comma);
    assert s[..nameStart][nameStart - |open|..] == s[pos..pos + |open|];
    NameFieldLiteral(s, nameStart, comma);
    FieldLiteral(s, nameStart, comma);
  }

  lemma {:induction false} SplitAtComma(s: string, nameStart: nat, comma: nat)
    requires nameStart <= comma < |s| && s[comma] == ','
    ensures s == s[..nameStart] + (s[nameStart..comma] + ("," + s[comma + 1..]))
  {
    assert s[comma..] == "," + s[comma + 1..];
    assert s[nameStart..] == s[nameStart..comma] + s[comma..];
    assert s == s[..nameStart] + s[nameStart..];
  }

  lemma {:induction false} FieldLiteral(s: string, nameStart: nat, comma: nat)
    requires nameStart <= comma <= |s|
    requires forall q :: nameStart <= q < comma ==> s[q] != ',' && s[q] != '>'
    requires forall q :: nameStart <= q && q + 1 < comma ==> !MatchAt(s, "$<", q)
    ensures var field := s[nameStart..comma];
            && (forall q :: 0 <= q < |field| ==> field[q] != ',' && field[q] != '>')
            && !Contains(field, "$<")
  {
    var field := s[nameStart..comma];
    forall q | 0 <= q < |field|
      ensures field[q] != ',' && field[q] != '>'
    {
      assert field[q] == s[nameStart + q];
    }
    forall q: nat
      ensures !MatchAt(field, "$<", q)
    {
      if q + 2 <= |field| {
        assert !MatchAt(s, "$<", nameStart + q);
        assert field[q..q + 2] == s[nameStart + q..nameStart + q + 2] by {
          assert field[q] == s[nameStart + q] && field[q + 1] == s[nameStart + q + 1];
        }
      }
    }
    ContainsIff(field, "$<");
  }

  /** What the scan does with the first opening of a text. */
  datatype PropertyStep =
    | NoConstruct
    | SkipField(nameStart: nat)
    | RenameField(nameStart: nat, comma: nat)

  /**
    The scan's decision for the first construct of `s`: none left, a name
    field to skip (`nameStart` just after the opening), or a name field
    `s[nameStart..comma]` to rewrite.
   */
  function NextProperty(open: Opening, s: string): (r: PropertyStep)
    ensures r.SkipField? ==> |open| <= r.nameStart <= |s|
    ensures r.RenameField? ==> |open| <= r.nameStart <= r.comma < |s| && s[r.comma] == ','
  {
    match Find(s, open, 0)
    case None => NoConstruct
    case Some(pos) =>
      var nameStart := pos + |open|;
      match NameFieldEnd(s, nameStart)
      case None => SkipField(nameStart)
      case Some(comma) => RenameField(nameStart, comma)
  }

  /** A field is skipped or rewritten only right after an occurrence of the opening. */
  lemma {:induction false} NextPropertySpec(open: Opening, s: string)
    ensures NextProperty(open, s).NoConstruct? ==> forall q :: !MatchAt(s, open, q)
    ensures NextProperty(open, s).SkipField? ==>
              var k := NextProperty(open, s).nameStart;
              MatchAt(s, open, k - |open|) && NameFieldEnd(s, k).None?
    ensures NextProperty(open, s).RenameField? ==>
              var k := NextProperty(open, s).nameStart;
              MatchAt(s, open, k - |open|) && NameFieldEnd(s, k) == Some(NextProperty(open, s).comma)
  {
    FindSpec(s, open, 0);
  }

  /** What a scan computes: the rewritten text and the missing-targets list. */
  datatype Rewritten = Rewritten(text: string, missing: seq<string>)

  /**
    Reference definition of the `$<TARGET_PROPERTY:` rewriting, by recursion
    on the text still to scan: find the next construct; if its name field is
    skipped, keep everything up to the name start and go on from there;
    otherwise namespace the field and go on after the comma.
   */
  ghost function PropertyRewrite(c: Config, target: Target, open: Opening, s: string, missing: seq<string>): Rewritten
    decreases |s|
  {
    match NextProperty(open, s)
    case NoConstruct => Rewritten(s, missing)
    case SkipField(k) =>
      var r := PropertyRewrite(c, target, open, s[k..], missing);
      Rewritten(s[..k] + r.text, r.missing)
    case RenameField(k, comma) =>
      var a := AddTargetNamespace(c, s[k..comma], target, missing);
      var r := PropertyRewrite(c, target, open, s[comma + 1..], a.missing);
      Rewritten(s[..k] + (a.name + ("," + r.text)), r.missing)
  }

  /** The pieces `PropertyRewrite` cuts `s` into, in order. */
  ghost function PropertySegments(c: Config, target: Target, open: Opening, s: string, missing: seq<string>): seq<Segment>
    decreases |s|
  {
    match NextProperty(open, s)
    case NoConstruct => [Same(s)]
    case SkipField(k) => [Same(s[..k])] + PropertySegments(c, target, open, s[k..], missing)
    case RenameField(k, comma) =>
      var a := AddTargetNamespace(c, s[k..comma], target, missing);
      [Field(s[..k], s[k..comma], a.name)] + PropertySegments(c, target, open, s[comma + 1..], a.missing)
  }

  /**
    `segs` cuts `s` into pieces that put together give `s` back and, each
    rewritten, give the text of `r`; only name fields are rewritten, and the
    missing-targets list only grows from `missing`.
   */
  ghost predicate SoundRewrite(c: Config, target: Target, open: Opening, s: string, missing: seq<string>, segs: seq<Segment>, r: Rewritten)
  {
    && Original(segs) == s
    && Rewrite(segs) == r.text
    && OnlyNameFields(c, target, open, segs)
    && missing <= r.missing
  }

  /** The reference rewriting changes the name fields of `PropertySegments` and nothing else. */
  lemma {:induction false} PropertyRewriteSound(c: Config, target: Target, open: Opening, s: string, missing: seq<string>)
    decreases |s|
    ensures SoundRewrite(c, target, open, s, missing, PropertySegments(c, target, open, s, missing), PropertyRewrite(c, target, open, s, missing))
  {
    NextPropertySpec(open, s);
    match NextProperty(open, s)
    case NoConstruct =>
      SegmentsCons(Same(s), []);
      assert [Same(s)] + [] == [Same(s)];
    case SkipField(k) =>
      PropertyRewriteSound(c, target, open, s[k..], missing);
      SkippedStep(c, target, open, s, k, missing, PropertySegments(c, target, open, s[k..], missing), PropertyRewrite(c, target, open, s[k..], missing));
    case RenameField(k, comma) =>
      var a := AddTargetNamespace(c, s[k..comma], target, missing);
      var g := Field(s[..k], s[k..comma], a.name);
      PropertyRewriteSound(c, target, open, s[comma + 1..], a.missing);
      FieldRewrittenAt(c, target, open, s, k - |open|, comma, missing);
      RenamedStep(c, target, open, s, missing, g, s[comma + 1..], a.missing,
                  PropertySegments(c, target, open, s[comma + 1..], a.missing), PropertyRewrite(c, target, open, s[comma + 1..], a.missing));
  }

  /**
    The first opening of `SegmentBefore(g) + r` is the one whose name field
    `g` passes over or rewrites: a kept piece ends just after an opening
    whose name field is skipped, a rewritten piece holds the first opening,
    its name field and the comma after it.
   */
  ghost predicate FirstConstruct(open: Opening, g: Segment, r: string)
  {
    match g
    case Same(t) =>
      && |t| >= |open|
      && Find(t + r, open, 0) == Some(|t| - |open|)
      && NameFieldEnd(t + r, |t|).None?
    case Field(head, from, _) =>
      var s := head + (from + ("," + r));
      && |head| >= |open|
      && Find(s, open, 0) == Some(|head| - |open|)
      && NameFieldEnd(s, |head|) == Some(|head| + |from|)
  }

  /**
    No construct is passed over: every piece but the last stops at the
    first opening of the text from that piece on, and the last piece is
    kept as it is and holds no opening.
   */
  ghost predicate NoneMissed(open: Opening, segs: seq<Segment>)
    decreases |segs|
  {
    && segs != []
    && (|segs| == 1 ==> segs[0].Same? && Find(segs[0].text, open, 0).None?)
    && (|segs| > 1 ==> FirstConstruct(open, segs[0], Original(segs[1..])) && NoneMissed(open, segs[1..]))
  }

  /**
    The reference rewriting looks at every construct: the pieces of
    `PropertySegments` are cut at each opening in turn, so every opening of
    the text is either followed by a name field that is rewritten or one the
    scan skips for the reason `NameFieldEnd` gives.
   */
  lemma {:induction false} PropertyRewriteComplete(c: Config, target: Target, open: Opening, s: string, missing: seq<string>)
    decreases |s|
    ensures NoneMissed(open, PropertySegments(c, target, open, s, missing))
  {
    match NextProperty(open, s)
    case NoConstruct =>
      assert PropertySegments(c, target, open, s, missing) == [Same(s)];
    case SkipField(k) =>
      var tail := PropertySegments(c, target, open, s[k..], missing);
      assert PropertySegments(c, target, open, s, missing) == [Same(s[..k])] + tail;
      PropertyRewriteComplete(c, target, open, s[k..], missing);
      PropertyRewriteSound(c, target, open, s[k..], missing);
      SkippedComplete(open, s, k, tail);
    case RenameField(k, comma) =>
      var a := AddTargetNamespace(c, s[k..comma], target, missing);
      var tail := PropertySegments(c, target, open, s[comma + 1..], a.missing);
      assert PropertySegments(c, target, open, s, missing) == [Field(s[..k], s[k..comma], a.name)] + tail;
      PropertyRewriteComplete(c, target, open, s[comma + 1..], a.missing);
      PropertyRewriteSound(c, target, open, s[comma + 1..], a.missing);
      RenamedComplete(open, s, k, comma, a.name, tail);
  }

  /** Keeping the text up to a skipped name field in front of pieces that miss no construct of the rest. */
  lemma {:induction false} SkippedComplete(open: Opening, s: string, k: nat, tail: seq<Segment>)
    requires |open| <= k <= |s| && Find(s, open, 0) == Some(k - |open|) && NameFieldEnd(s, k).None?
    requires NoneMissed(open, tail) && Original(tail) == s[k..]
    ensures NoneMissed(open, [Same(s[..k])] + tail)
  {
    var g := Same(s[..k]);
    var all := [g] + tail;
    var t := s[..k];
    assert t + s[k..] == s;
    assert FirstConstruct(open, g, s[k..]);
    assert |all| > 1 && all[0] == g && all[1..] == tail;
  }

  /** Putting a rewritten name field in front of pieces that miss no construct of the text after its comma. */
  lemma {:induction false} RenamedComplete(open: Opening, s: string, k: nat, comma: nat, name: string, tail: seq<Segment>)
    requires |open| <= k && Find(s, open, 0) == Some(k - |open|) && NameFieldEnd(s, k) == Some(comma)
    requires NoneMissed(open, tail) && Original(tail) == s[comma + 1..]
    ensures NoneMissed(open, [Field(s[..k], s[k..comma], name)] + tail)
  {
    var g := Field(s[..k], s[k..comma], name);
    var all := [g] + tail;
    assert FirstConstruct(open, g, s[comma + 1..]) by {
      SplitAtComma(s, k, comma);
      assert |g.head| == k && |g.head| + |g.from| == comma;
    }
    assert |all| > 1 && all[0] == g && all[1..] == tail;
  }

  /** Keeping the text up to a skipped name field in front of a sound rewriting of the rest. */
  lemma {:induction false} SkippedStep(c: Config, target: Target, open: Opening, s: string, nameStart: nat, missing: seq<string>, segs: seq<Segment>, r: Rewritten)
    requires nameStart <= |s|
    requires SoundRewrite(c, target, open, s[nameStart..], missing, segs, r)
    ensures SoundRewrite(c, target, open, s, missing, [Same(s[..nameStart])] + segs, Rewritten(s[..nameStart] + r.text, r.missing))
  {
    SegmentsCons(Same(s[..nameStart]), segs);
    OnlyNameFieldsCons(c, target, open, Same(s[..nameStart]), segs);
    assert s == s[..nameStart] + s[nameStart..];
  }

  /** Putting a rewritten name field in front of a sound rewriting of the text after its comma. */
  lemma {:induction false} RenamedStep(c: Config, target: Target, open: Opening, s: string, missing: seq<string>,
                                       g: Segment, rest: string, nextMissing: seq<string>, segs: seq<Segment>, r: Rewritten)
    requires g.Field? && NameFieldRewritten(c, target, open, g)
    requires s == SegmentBefore(g) + rest && missing <= nextMissing
    requires SoundRewrite(c, target, open, rest, nextMissing, segs, r)
    ensures SoundRewrite(c, target, open, s, missing, [g] + segs, Rewritten(g.head + (g.to + ("," + r.text)), r.missing))
  {
    var all := [g] + segs;
    assert Original(all) == s && Rewrite(all) == g.head + (g.to + ("," + r.text)) by {
      SegmentsCons(g, segs);
      Assoc(g.head, g.to + ",", r.text);
      Assoc(g.to, ",", r.text);
    }
    assert OnlyNameFields(c, target, open, all) by {
      OnlyNameFieldsCons(c, target, open, g, segs);
    }
  }

  /** A name field the scan rewrites is rewritten as `NameFieldRewritten` says. */
  lemma {:induction false} FieldRewrittenAt(c: Config, target: Target, open: Opening, s: string, pos: nat, comma: nat, missing: seq<string>)
    requires MatchAt(s, open, pos)
    requires NameFieldEnd(s, pos + |open|) == Some(comma)
    ensures var nameStart := pos + |open|;
            var g := Field(s[..nameStart], s[nameStart..comma], AddTargetNamespace(c, s[nameStart..comma], target, missing).name);
            NameFieldRewritten(c, target, open, g) && s == SegmentBefore(g) + s[comma + 1..]
  {
    var nameStart := pos + |open|;
    NameIndependentOfMissing(c, s[nameStart..comma], target, missing, []);
    NameFieldFacts(open, s, pos, comma);
  }

  /** `NameFieldEnd` only looks at the text from the name start on. */
  lemma {:induction false} NameFieldEndShift(s: string, from: nat, nameStart: nat)
    requires from <= nameStart && from <= |s|
    ensures NameFieldEnd(s, nameStart) == Shift(NameFieldEnd(s[from..], nameStart - from), from)
  {
    FindShift(s, ">", from, nameStart);
    FindShift(s, ",", from, nameStart);
    FindShift(s, "$<", from, nameStart);
  }

  /**
    What the `$<TARGET_PROPERTY:` loop will end with from a state whose text
    is `done + rest`, with `done` (the text before `lastPos`) final and
    `rest` still to be rewritten as `PropertyRewrite` says.
   */
  ghost function PropertyFinish(c: Config, target: Target, open: Opening, done: string, rest: string, missing: seq<string>): Rewritten
  {
    var r := PropertyRewrite(c, target, open, rest, missing);
    Rewritten(done + r.text, r.missing)
  }

  /** At the start of the loop nothing is final and the outcome is the reference rewriting of the whole input. */
  lemma {:induction false} PropertyStart(c: Config, target: Target, open: Opening, input: string, missing: seq<string>)
    ensures PropertyFinish(c, target, open, [], input, missing) == PropertyRewrite(c, target, open, input, missing)
  {
    assert [] + PropertyRewrite(c, target, open, input, missing).text == PropertyRewrite(c, target, open, input, missing).text;
  }

  /**
    What the loop finds from `lastPos` (the next construct and the end of its
    name field) is the decision `NextProperty` takes on the rest of the text.
   */
  lemma {:induction false} ScanFromLastPos(open: Opening, input: string, lastPos: nat)
    requires lastPos <= |input|
    ensures Find(input, open, lastPos).None? ==> NextProperty(open, input[lastPos..]) == NoConstruct
    ensures Find(input, open, lastPos).Some? ==>
              var nameStart := Find(input, open, lastPos).value + |open|;
              match NameFieldEnd(input, nameStart)
              case None => NextProperty(open, input[lastPos..]) == SkipField(nameStart - lastPos)
              case Some(comma) => NextProperty(open, input[lastPos..]) == RenameField(nameStart - lastPos, comma - lastPos)
  {
    var s := input[lastPos..];
    FindShift(input, open, lastPos, lastPos);
    match Find(s, open, 0)
    case None =>
    case Some(p) =>
      var k := p + |open|;
      NameFieldEndShift(input, lastPos, k + lastPos);
      assert NextProperty(open, s) == (match NameFieldEnd(s, k)
                                       case None => SkipField(k)
                                       case Some(e) => RenameField(k, e));
  }

  /** When no construct is left in `rest`, the loop ends with the text as it is. */
  lemma {:induction false} PropertyDone(c: Config, target: Target, open: Opening, done: string, rest: string, missing: seq<string>)
    requires NextProperty(open, rest) == NoConstruct
    ensures PropertyFinish(c, target, open, done, rest, missing) == Rewritten(done + rest, missing)
  {
  }

  /** Skipping a construct (`lastPos = nameStartPos`) keeps the outcome. */
  lemma {:induction false} PropertySkipStep(c: Config, target: Target, open: Opening, done: string, rest: string, k: nat, missing: seq<string>)
    requires NextProperty(open, rest) == SkipField(k)
    ensures k <= |rest|
    ensures PropertyFinish(c, target, open, done + rest[..k], rest[k..], missing)
            == PropertyFinish(c, target, open, done, rest, missing)
  {
    var r := PropertyRewrite(c, target, open, rest[k..], missing);
    assert PropertyRewrite(c, target, open, rest, missing) == Rewritten(rest[..k] + r.text, r.missing);
    Assoc(done, rest[..k], r.text);
  }

  /**
    Namespacing a name field, replacing it and resuming after the comma of the
    new text keeps the outcome.
   */
  lemma {:induction false} PropertyRenameStep(c: Config, target: Target, open: Opening, done: string, rest: string, k: nat, comma: nat,
                                              missing: seq<string>, a: Namespaced, nextDone: string, nextRest: string)
    requires NextProperty(open, rest) == RenameField(k, comma)
    requires a == AddTargetNamespace(c, rest[k..comma], target, missing)
    requires nextDone == done + (rest[..k] + (a.name + ",")) && nextRest == rest[comma + 1..]
    ensures PropertyFinish(c, target, open, nextDone, nextRest, a.missing) == PropertyFinish(c, target, open, done, rest, missing)
  {
    var r := PropertyRewrite(c, target, open, rest[comma + 1..], a.missing);
    assert PropertyRewrite(c, target, open, rest, missing) == Rewritten(rest[..k] + (a.name + ("," + r.text)), r.missing);
    Assoc(rest[..k], a.name, "," + r.text);
    Assoc(rest[..k] + a.name, ",", r.text);
    Assoc(rest[..k], a.name, ",");
    Assoc(done, rest[..k] + (a.name + ","), r.text);
  }

  /**
    The text after `input.replace(nameStart, comma - nameStart, name)`: up to
    the new comma it is the final text plus the renamed construct, after it
    the rest of the old text.
   */
  lemma {:induction false} ReplaceField(input: string, lastPos: nat, nameStart: nat, comma: nat, name: string, next: string)
    requires lastPos <= nameStart <= comma < |input| && input[comma] == ','
    requires IsReplacement(next, input, nameStart, comma - nameStart, name)
    ensures var s := input[lastPos..];
            && nameStart + |name| + 1 <= |next|
            && next[..nameStart + |name| + 1] == input[..lastPos] + (s[..nameStart - lastPos] + (name + ","))
            && next[nameStart + |name| + 1..] == s[comma - lastPos + 1..]
  {
    var s := input[lastPos..];
    assert input[..nameStart] == input[..lastPos] + s[..nameStart - lastPos];
    assert next[..nameStart + |name| + 1] == next[..nameStart] + next[nameStart..nameStart + |name|] + next[nameStart + |name|..][..1];
    assert input[comma..][..1] == ",";
    assert next[nameStart + |name| + 1..] == next[nameStart + |name|..][1..];
  }

  /** Cutting the scanned text at the name start, seen from `lastPos`. */
  lemma {:induction false} SliceAt(input: string, lastPos: nat, nameStart: nat)
    requires lastPos <= nameStart <= |input|
    ensures input[nameStart..] == input[lastPos..][nameStart - lastPos..]
    ensures input[..nameStart] == input[..lastPos] + input[lastPos..][..nameStart - lastPos]
  {
  }


  /** When the search from `lastPos` finds no opening, no construct is left in the rest of the text. */
  lemma {:induction false} PropertyHalt(open: Opening, input: string, lastPos: nat, done: string, rest: string)
    requires lastPos <= |input|
    requires done == input[..lastPos] && rest == input[lastPos..]
    requires Find(input, open, lastPos).None?
    ensures NextProperty(open, rest) == NoConstruct
    ensures done + rest == input
  {
    ScanFromLastPos(open, input, lastPos);
  }

  /** A construct found from `lastPos` whose name field is skipped: the decision on the rest, and the text cut at the name start. */
  lemma {:induction false} PropertySkipAt(open: Opening, input: string, lastPos: nat, pos: nat, done: string, rest: string)
    requires lastPos <= |input|
    requires done == input[..lastPos] && rest == input[lastPos..]
    requires Find(input, open, lastPos) == Some(pos)
    requires NameFieldEnd(input, pos + |open|).None?
    ensures NextProperty(open, rest) == SkipField(pos + |open| - lastPos)
    ensures done + rest[..pos + |open| - lastPos] == input[..pos + |open|]
    ensures rest[pos + |open| - lastPos..] == input[pos + |open|..]
  {
    ScanFromLastPos(open, input, lastPos);
    SliceAt(input, lastPos, pos + |open|);
  }

  /**
    A construct found from `lastPos` whose name field `input[nameStart..comma]`
    is rewritten: the decision on the rest; and the text `next` in which the
    field is replaced by `name`, cut after the comma.
   */
  lemma {:induction false} PropertyRenameAt(open: Opening, input: string, lastPos: nat, pos: nat, nameStart: nat, comma: nat, done: string, rest: string)
    requires lastPos <= |input|
    requires done == input[..lastPos] && rest == input[lastPos..]
    requires Find(input, open, lastPos) == Some(pos) && nameStart == pos + |open|
    requires NameFieldEnd(input, nameStart) == Some(comma)
    ensures lastPos <= nameStart
    ensures NextProperty(open, rest) == RenameField(nameStart - lastPos, comma - lastPos)
    ensures input[nameStart..comma] == rest[nameStart - lastPos..comma - lastPos]
  {
    ScanFromLastPos(open, input, lastPos);
  }

  /** The text after the name field is replaced by `name`, cut after the comma. */
  lemma {:induction false} PropertyReplaced(input: string, lastPos: nat, nameStart: nat, comma: nat, name: string, next: string,
                                            done: string, rest: string, nextPos: nat, nextDone: string, nextRest: string)
    requires lastPos <= nameStart <= comma < |input| && input[comma] == ','
    requires done == input[..lastPos] && rest == input[lastPos..]
    requires IsReplacement(next, input, nameStart, comma - nameStart, name)
    requires nextPos == nameStart + |name| + 1
    requires nextDone == done + (rest[..nameStart - lastPos] + (name + ",")) && nextRest == rest[comma - lastPos + 1..]
    ensures nextPos <= |next|
    ensures nextDone == next[..nextPos] && nextRest == next[nextPos..]
  {
    ReplaceField(input, lastPos, nameStart, comma, name, next);
  }

  /**
    The step of the loop at a name field it rewrites: the text after
    `input.replace(nameStart, comma - nameStart, name)`, cut after the
    comma, keeps the outcome.
   */
  lemma {:induction false} PropertyRenamed(c: Config, target: Target, open: Opening, input: string, lastPos: nat, nameStart: nat, comma: nat,
                                           missing: seq<string>, a: Namespaced, done: string, rest: string,
                                           next: string, nextPos: nat, nextDone: string, nextRest: string)
    requires lastPos <= nameStart <= comma < |input| && input[comma] == ','
    requires done == input[..lastPos] && rest == input[lastPos..]
    requires NextProperty(open, rest) == RenameField(nameStart - lastPos, comma - lastPos)
    requires a == AddTargetNamespace(c, input[nameStart..comma], target, missing)
    requires IsReplacement(next, input, nameStart, comma - nameStart, a.name)
    requires nextPos == nameStart + |a.name| + 1
    requires nextDone == done + (rest[..nameStart - lastPos] + (a.name + ",")) && nextRest == rest[comma - lastPos + 1..]
    ensures nextPos <= |next|
    ensures nextDone == next[..nextPos] && nextRest == next[nextPos..]
    ensures |nextRest| < |rest|
    ensures PropertyFinish(c, target, open, nextDone, nextRest, a.missing) == PropertyFinish(c, target, open, done, rest, missing)
  {
    SliceShift(input, lastPos, nameStart, comma);
    PropertyRenameStep(c, target, open, done, rest, nameStart - lastPos, comma - lastPos, missing, a, nextDone, nextRest);
    PropertyReplaced(input, lastPos, nameStart, comma, a.name, next, done, rest, nextPos, nextDone, nextRest);
  }

  // ---------------------------------------------------------------------------
  // $<TARGET_NAME:name>
  // ---------------------------------------------------------------------------

  /** Why the `$<TARGET_NAME:` scan stops early; each issues one fatal error. */
  datatype NameError = Incomplete | NonLiteral | Unreachable

  /** What the scan does at the next `$<TARGET_NAME:` from some position on. */
  datatype NameAction =
    | Stop(error: Option<NameError>)
    | Substitute(pos: nat, endPos: nat, resolved: Namespaced)

  /**
    The decision the scan takes from `from` on: stop when there is no
    construct left (no error) or when the first construct has no `>`, holds
    `$<` in its argument or names no target; otherwise replace
    `s[pos..endPos + 1]` by the resolved name.
   */
  function NameDecision(c: Config, target: Target, open: Opening, s: string, from: nat, missing: seq<string>): (r: NameAction)
    ensures r.Substitute? ==> from <= r.pos && r.pos + |open| <= r.endPos < |s| && s[r.endPos] == '>'
  {
    match Find(s, open, from)
    case None => Stop(None)
    case Some(pos) =>
      match Find(s, ">", pos + |open|)
      case None => Stop(Some(Incomplete))
      case Some(endPos) =>
        FindSpec(s, ">", pos + |open|);
        ArgumentAction(c, target, s[pos + |open|..endPos], pos, endPos, missing)
  }

  /** The decision on a complete construct `s[pos..endPos + 1]` with argument `arg`. */
  function ArgumentAction(c: Config, target: Target, arg: string, pos: nat, endPos: nat, missing: seq<string>): (r: NameAction)
    ensures r.Substitute? ==> r.pos == pos && r.endPos == endPos
  {
    if Contains(arg, "$<") then Stop(Some(NonLiteral))
    else
      var a := AddTargetNamespace(c, arg, target, missing);
      if !a.found then Stop(Some(Unreachable)) else Substitute(pos, endPos, a)
  }

  /** A replaced construct holds a literal argument without `>`, and it names a target. */
  lemma {:induction false} NameDecisionSpec(c: Config, target: Target, open: Opening, s: string, from: nat, missing: seq<string>)
    ensures var r := NameDecision(c, target, open, s, from, missing);
            r.Substitute? ==>
              var arg := s[r.pos + |open|..r.endPos];
              && MatchAt(s, open, r.pos)
              && (forall q :: 0 <= q < |arg| ==> arg[q] != '>')
              && !Contains(arg, "$<")
              && r.resolved == AddTargetNamespace(c, arg, target, missing)
              && r.resolved.found
    ensures NameDecision(c, target, open, s, from, missing) == Stop(None) <==> Find(s, open, from).None?
  {
    var r := NameDecision(c, target, open, s, from, missing);
    FindSpec(s, open, from);
    if r.Substitute? {
      var nameStart := r.pos + |open|;
      FindSpec(s, ">", nameStart);
      var arg := s[nameStart..r.endPos];
      forall q | 0 <= q < |arg|
        ensures arg[q] != '>'
      {
        assert arg[q] == s[nameStart + q];
        assert !MatchAt(s, ">", nameStart + q);
        assert s[nameStart + q..nameStart + q + 1] == [s[nameStart + q]];
      }
    }
  }

  /** Moves a decision on a suffix of the text to the positions of the whole text. */
  function ShiftAction(r: NameAction, k: nat): NameAction
  {
    match r
    case Stop(e) => Stop(e)
    case Substitute(pos, endPos, a) => Substitute(pos + k, endPos + k, a)
  }

  /** The scan from `lastPos` decides as the scan of the rest of the text does. */
  lemma {:induction false} NameDecisionShift(c: Config, target: Target, open: Opening, input: string, lastPos: nat, missing: seq<string>)
    requires lastPos <= |input|
    ensures NameDecision(c, target, open, input, lastPos, missing)
            == ShiftAction(NameDecision(c, target, open, input[lastPos..], 0, missing), lastPos)
  {
    var s := input[lastPos..];
    FindShift(input, open, lastPos, lastPos);
    match Find(s, open, 0)
    case None =>
    case Some(p) =>
      var nameStart := p + lastPos + |open|;
      FindShift(input, ">", lastPos, nameStart);
      match Find(s, ">", p + |open|)
      case None =>
      case Some(e) =>
        var arg := s[p + |open|..e];
        assert input[nameStart..e + lastPos] == arg;
        ArgumentActionShift(c, target, arg, p, e, missing, lastPos);
  }

  lemma {:induction false} ArgumentActionShift(c: Config, target: Target, arg: string, pos: nat, endPos: nat, missing: seq<string>, k: nat)
    ensures ArgumentAction(c, target, arg, pos + k, endPos + k, missing) == ShiftAction(ArgumentAction(c, target, arg, pos, endPos, missing), k)
  {
  }

  /** A piece of the text seen by the `$<TARGET_NAME:` scan. */
  datatype Piece =
    | Kept(text: string)
    | Replaced(construct: string, name: string)
    // text the scan passes over after a replacement, because it resumes at the old index of `>`
    | Skipped(text: string)

  /** The text a piece came from. */
  function PieceBefore(p: Piece): string
  {
    match p
    case Replaced(construct, _) => construct
    case Kept(t) => t
    case Skipped(t) => t
  }

  /** The text a piece became. */
  function PieceAfter(p: Piece): string
  {
    match p
    case Replaced(_, name) => name
    case Kept(t) => t
    case Skipped(t) => t
  }

  /** The text the pieces came from. */
  function Before(ps: seq<Piece>): string
  {
    if ps == [] then "" else PieceBefore(ps[0]) + Before(ps[1..])
  }

  /** The text the pieces became. */
  function After(ps: seq<Piece>): string
  {
    if ps == [] then "" else PieceAfter(ps[0]) + After(ps[1..])
  }

  /** What the `$<TARGET_NAME:` scan computes: the text, the missing-targets list and the error it stopped on, if any. */
  datatype Resolved = Resolved(text: string, missing: seq<string>, error: Option<NameError>)

  /**
    How many characters after a replaced construct the scan passes over: it
    resumes at the old index of `>`, which lies `k - nameLength` characters
    into the rest of the text when the name is shorter than the `k`
    characters before `>` (and past its end when the rest is shorter still).
   */
  function SkipCount(k: nat, nameLength: nat, restLength: nat): (d: nat)
    ensures d <= restLength
  {
    if k <= nameLength then 0
    else if k - nameLength <= restLength then k - nameLength
    else restLength
  }

  /**
    Reference definition of the `$<TARGET_NAME:` scan by recursion on the
    text still to scan: stop as `NameDecision` says, or replace the
    construct by the resolved name, pass over what the resumed search skips,
    and go on.
   */
  ghost function NameRewrite(c: Config, target: Target, open: Opening, s: string, missing: seq<string>): Resolved
    decreases |s|
  {
    match NameDecision(c, target, open, s, 0, missing)
    case Stop(e) => Resolved(s, missing, e)
    case Substitute(pos, endPos, a) =>
      var rest := s[endPos + 1..];
      var d := SkipCount(endPos - pos, |a.name|, |rest|);
      var r := NameRewrite(c, target, open, rest[d..], a.missing);
      Resolved(s[..pos] + (a.name + (rest[..d] + r.text)), r.missing, r.error)
  }

  /** The pieces `NameRewrite` cuts `s` into, in order. */
  ghost function NamePieces(c: Config, target: Target, open: Opening, s: string, missing: seq<string>): seq<Piece>
    decreases |s|
  {
    match NameDecision(c, target, open, s, 0, missing)
    case Stop(_) => [Kept(s)]
    case Substitute(pos, endPos, a) =>
      var rest := s[endPos + 1..];
      var d := SkipCount(endPos - pos, |a.name|, |rest|);
      Prepended(s, pos, endPos, a.name, d, NamePieces(c, target, open, rest[d..], a.missing))
  }

  /**
    The pieces of a replaced construct `s[pos..endPos + 1]` and of the `d`
    characters after it, put one by one in front of `ps`.
   */
  function Prepended(s: string, pos: nat, endPos: nat, name: string, d: nat, ps: seq<Piece>): seq<Piece>
    requires pos <= endPos < |s| && d <= |s| - endPos - 1
  {
    var rest := s[endPos + 1..];
    [Kept(s[..pos])] + ([Replaced(s[pos..endPos + 1], name)] + ([Skipped(rest[..d])] + ps))
  }

  /** The argument of a construct `open + arg + ">"`. */
  function Argument(open: Opening, construct: string): string
    requires |construct| > |open|
  {
    construct[|open|..|construct| - 1]
  }

  /**
    A replaced construct is `open + arg + ">"` with a literal argument free
    of `>`, and `AddTargetNamespace` accepts the argument and gives the name
    that replaces it.
   */
  ghost predicate GoodReplacement(c: Config, target: Target, open: Opening, p: Piece)
    requires p.Replaced?
  {
    && |p.construct| > |open|
    && p.construct == open + Argument(open, p.construct) + ">"
    && (forall q :: 0 <= q < |Argument(open, p.construct)| ==> Argument(open, p.construct)[q] != '>')
    && !Contains(Argument(open, p.construct), "$<")
    && AddTargetNamespace(c, Argument(open, p.construct), target, []).found
    && p.name == AddTargetNamespace(c, Argument(open, p.construct), target, []).name
  }

  /** Every replaced piece is a good replacement. */
  ghost predicate AllGood(c: Config, target: Target, open: Opening, ps: seq<Piece>)
  {
    forall i :: 0 <= i < |ps| && ps[i].Replaced? ==> GoodReplacement(c, target, open, ps[i])
  }

  /**
    `ps` cuts `s` into pieces that put together give `s` back and, each
    rewritten, give the text of `r`; every replaced construct is a literal,
    reachable construct replaced by its resolved name; the last piece is the
    text the scan stopped on, left as it is, and the scan stops there for
    the reason `r.error` gives; the missing-targets list only grows.
   */
  ghost predicate SoundNames(c: Config, target: Target, open: Opening, s: string, missing: seq<string>, ps: seq<Piece>, r: Resolved)
  {
    && Before(ps) == s
    && After(ps) == r.text
    && AllGood(c, target, open, ps)
    && ps != [] && ps[|ps| - 1].Kept?
    && NameDecision(c, target, open, ps[|ps| - 1].text, 0, r.missing) == Stop(r.error)
    && missing <= r.missing
  }

  lemma {:induction false} PiecesCons(p: Piece, ps: seq<Piece>)
    ensures Before([p] + ps) == PieceBefore(p) + Before(ps)
    ensures After([p] + ps) == PieceAfter(p) + After(ps)
    ensures ([p] + ps)[1..] == ps
  {
    assert ([p] + ps)[0] == p;
    assert ([p] + ps)[1..] == ps;
  }

  /** Putting a piece in front keeps every replacement good, and the last piece where it was. */
  lemma {:induction false} GoodCons(c: Config, target: Target, open: Opening, p: Piece, ps: seq<Piece>)
    requires p.Replaced? ==> GoodReplacement(c, target, open, p)
    requires AllGood(c, target, open, ps)
    requires ps != []
    ensures AllGood(c, target, open, [p] + ps)
    ensures ([p] + ps)[|[p] + ps| - 1] == ps[|ps| - 1]
  {
    var all := [p] + ps;
    forall i | 0 <= i < |all| && all[i].Replaced?
      ensures GoodReplacement(c, target, open, all[i])
    {
      if i > 0 {
        assert all[i] == ps[i - 1];
      }
    }
  }

  /** The text of the pieces `Prepended` puts in front, before and after. */
  lemma {:induction false} PrependedText(s: string, pos: nat, endPos: nat, name: string, d: nat, ps: seq<Piece>)
    requires pos <= endPos < |s| && d <= |s| - endPos - 1
    ensures var rest := s[endPos + 1..];
            var all := Prepended(s, pos, endPos, name, d, ps);
            && Before(all) == s[..pos] + (s[pos..endPos + 1] + (rest[..d] + Before(ps)))
            && After(all) == s[..pos] + (name + (rest[..d] + After(ps)))
  {
    var rest := s[endPos + 1..];
    var skipped := [Skipped(rest[..d])] + ps;
    var replaced := [Replaced(s[pos..endPos + 1], name)] + skipped;
    PiecesCons(Skipped(rest[..d]), ps);
    PiecesCons(Replaced(s[pos..endPos + 1], name), skipped);
    PiecesCons(Kept(s[..pos]), replaced);
  }

  /** The reference scan changes the constructs of `NamePieces` and nothing else. */
  lemma {:induction false} NameRewriteSound(c: Config, target: Target, open: Opening, s: string, missing: seq<string>)
    ensures SoundNames(c, target, open, s, missing, NamePieces(c, target, open, s, missing), NameRewrite(c, target, open, s, missing))
    decreases |s|
  {
    match NameDecision(c, target, open, s, 0, missing)
    case Stop(e) =>
      assert NamePieces(c, target, open, s, missing) == [Kept(s)];
      PiecesCons(Kept(s), []);
      assert [Kept(s)] + [] == [Kept(s)];
    case Substitute(pos, endPos, a) =>
      var rest := s[endPos + 1..];
      var d := SkipCount(endPos - pos, |a.name|, |rest|);
      var ps := NamePieces(c, target, open, rest[d..], a.missing);
      var r := NameRewrite(c, target, open, rest[d..], a.missing);
      NamePiecesUnfold(c, target, open, s, missing, pos, endPos, a);
      NameUnfold(c, target, open, s, missing, pos, endPos, a);
      NameRewriteSound(c, target, open, rest[d..], a.missing);
      ReplacementFound(c, target, open, s, missing, pos, endPos, a);
      ReplacedStep(c, target, open, s, missing, pos, endPos, a.name, d, a.missing, ps, r);
  }

  /** Putting a good replacement and the text around it in front of a sound scan of the rest. */
  lemma {:induction false} ReplacedStep(c: Config, target: Target, open: Opening, s: string, missing: seq<string>,
                                        pos: nat, endPos: nat, name: string, d: nat, nextMissing: seq<string>, ps: seq<Piece>, r: Resolved)
    requires pos <= endPos < |s| && d <= |s| - endPos - 1
    requires GoodReplacement(c, target, open, Replaced(s[pos..endPos + 1], name))
    requires missing <= nextMissing
    requires SoundNames(c, target, open, s[endPos + 1..][d..], nextMissing, ps, r)
    ensures var rest := s[endPos + 1..];
            SoundNames(c, target, open, s, missing, Prepended(s, pos, endPos, name, d, ps),
                       Resolved(s[..pos] + (name + (rest[..d] + r.text)), r.missing, r.error))
  {
    var rest := s[endPos + 1..];
    var skipped := [Skipped(rest[..d])] + ps;
    var replaced := [Replaced(s[pos..endPos + 1], name)] + skipped;
    var all := Prepended(s, pos, endPos, name, d, ps);
    assert all == [Kept(s[..pos])] + replaced;
    assert Before(all) == s && After(all) == s[..pos] + (name + (rest[..d] + r.text)) by {
      PrependedText(s, pos, endPos, name, d, ps);
      SplitConstruct(s, pos, endPos, d);
    }
    assert AllGood(c, target, open, all) && all[|all| - 1] == ps[|ps| - 1] by {
      GoodCons(c, target, open, Skipped(rest[..d]), ps);
      GoodCons(c, target, open, Replaced(s[pos..endPos + 1], name), skipped);
      GoodCons(c, target, open, Kept(s[..pos]), replaced);
    }
  }

  /**
    No construct is overlooked outside the skipped pieces: a kept piece
    followed by a replaced construct holds no opening, so that construct is
    the first one from the start of the kept piece on.
   */
  ghost predicate NoneOverlooked(open: Opening, ps: seq<Piece>)
    decreases |ps|
  {
    |ps| > 1 ==>
      && (ps[0].Kept? ==> ps[1].Replaced? && Find(ps[0].text + ps[1].construct, open, 0) == Some(|ps[0].text|))
      && NoneOverlooked(open, ps[1..])
  }

  /**
    The reference scan replaces the first construct of the text it searches
    each time: the constructs it does not replace lie in the skipped pieces,
    or in the last piece, where it stopped for the reason `SoundNames` gives.
   */
  lemma {:induction false} NameRewriteOverlooksNothing(c: Config, target: Target, open: Opening, s: string, missing: seq<string>)
    ensures NoneOverlooked(open, NamePieces(c, target, open, s, missing))
    decreases |s|
  {
    match NameDecision(c, target, open, s, 0, missing)
    case Stop(_) =>
      assert NamePieces(c, target, open, s, missing) == [Kept(s)];
    case Substitute(pos, endPos, a) =>
      var rest := s[endPos + 1..];
      var d := SkipCount(endPos - pos, |a.name|, |rest|);
      var ps := NamePieces(c, target, open, rest[d..], a.missing);
      NamePiecesUnfold(c, target, open, s, missing, pos, endPos, a);
      NameRewriteOverlooksNothing(c, target, open, rest[d..], a.missing);
      FirstConstructReplaced(c, target, open, s, missing);
      PrependedOverlooksNothing(open, s, pos, endPos, a.name, d, ps);
  }

  /** The construct a decision replaces is the first one of the text. */
  lemma {:induction false} FirstConstructReplaced(c: Config, target: Target, open: Opening, s: string, missing: seq<string>)
    requires NameDecision(c, target, open, s, 0, missing).Substitute?
    ensures Find(s, open, 0) == Some(NameDecision(c, target, open, s, 0, missing).pos)
  {
  }

  /** Putting a construct the scan replaces, and the text around it, in front of pieces that overlook nothing. */
  lemma {:induction false} PrependedOverlooksNothing(open: Opening, s: string, pos: nat, endPos: nat, name: string, d: nat, ps: seq<Piece>)
    requires pos + |open| <= endPos < |s| && d <= |s| - endPos - 1
    requires Find(s, open, 0) == Some(pos)
    requires NoneOverlooked(open, ps)
    ensures NoneOverlooked(open, Prepended(s, pos, endPos, name, d, ps))
  {
    var rest := s[endPos + 1..];
    var skipped := [Skipped(rest[..d])] + ps;
    var replaced := [Replaced(s[pos..endPos + 1], name)] + skipped;
    var all := Prepended(s, pos, endPos, name, d, ps);
    assert all == [Kept(s[..pos])] + replaced;
    assert skipped[0].Skipped? && skipped[1..] == ps;
    assert NoneOverlooked(open, skipped);
    assert replaced[0].Replaced? && replaced[1..] == skipped;
    assert NoneOverlooked(open, replaced);
    FindInPrefix(s, open, endPos + 1);
    assert s[..pos] + s[pos..endPos + 1] == s[..endPos + 1];
    assert all[0] == Kept(s[..pos]) && all[1] == replaced[0] && all[1..] == replaced;
  }

  /** The construct a decision replaces is a good replacement, and the missing-targets list grows. */
  lemma {:induction false} ReplacementFound(c: Config, target: Target, open: Opening, s: string, missing: seq<string>, pos: nat, endPos: nat, a: Namespaced)
    requires NameDecision(c, target, open, s, 0, missing) == Substitute(pos, endPos, a)
    ensures pos + |open| <= endPos < |s|
    ensures GoodReplacement(c, target, open, Replaced(s[pos..endPos + 1], a.name))
    ensures missing <= a.missing
  {
    var construct := s[pos..endPos + 1];
    NameDecisionSpec(c, target, open, s, 0, missing);
    ConstructShape(open, s, pos, endPos);
    NameIndependentOfMissing(c, Argument(open, construct), target, missing, []);
  }

  /** A construct found by the scan is the opening, its argument and `>`. */
  lemma {:induction false} ConstructShape(open: Opening, s: string, pos: nat, endPos: nat)
    requires MatchAt(s, open, pos)
    requires pos + |open| <= endPos < |s| && s[endPos] == '>'
    ensures var construct := s[pos..endPos + 1];
            && |construct| > |open|
            && Argument(open, construct) == s[pos + |open|..endPos]
            && construct == open + Argument(open, construct) + ">"
  {
    var construct := s[pos..endPos + 1];
    var arg := Argument(open, construct);
    forall j | 0 <= j < |arg|
      ensures arg[j] == s[pos + |open| + j]
    {
      assert arg[j] == construct[|open| + j];
    }
    assert arg == s[pos + |open|..endPos];
    forall j | 0 <= j < |construct|
      ensures construct[j] == (open + arg + ">")[j]
    {
      if j < |open| {
        assert construct[j] == s[pos + j] == s[pos..pos + |open|][j];
      } else if j < |construct| - 1 {
        assert construct[j] == arg[j - |open|];
      }
    }
  }

  /** The text around a construct `s[pos..endPos + 1]` and the `d` characters after it. */
  lemma {:induction false} SplitConstruct(s: string, pos: nat, endPos: nat, d: nat)
    requires pos <= endPos < |s|
    requires d <= |s| - endPos - 1
    ensures var rest := s[endPos + 1..];
            s == s[..pos] + (s[pos..endPos + 1] + (rest[..d] + rest[d..]))
  {
    var rest := s[endPos + 1..];
    assert rest == rest[..d] + rest[d..];
    assert s[pos..] == s[pos..endPos + 1] + rest;
    assert s == s[..pos] + s[pos..];
  }

  /**
    What the `$<TARGET_NAME:` loop will end with from a state whose text is
    `done + rest`, with `done` final and `rest` still to be scanned as
    `NameRewrite` says.
   */
  ghost function NameFinish(c: Config, target: Target, open: Opening, done: string, rest: string, missing: seq<string>): Resolved
  {
    var r := NameRewrite(c, target, open, rest, missing);
    Resolved(done + r.text, r.missing, r.error)
  }

  /** At the start of the loop nothing is final. */
  lemma {:induction false} NameStart(c: Config, target: Target, open: Opening, input: string, missing: seq<string>)
    ensures NameFinish(c, target, open, [], input, missing) == NameRewrite(c, target, open, input, missing)
  {
    assert [] + NameRewrite(c, target, open, input, missing).text == NameRewrite(c, target, open, input, missing).text;
  }

  /** When the scan stops, the text is left as it is and the loop ends with the reason it stopped for. */
  lemma {:induction false} NameStopStep(c: Config, target: Target, open: Opening, done: string, rest: string, missing: seq<string>)
    requires NameDecision(c, target, open, rest, 0, missing).Stop?
    ensures NameFinish(c, target, open, done, rest, missing)
            == Resolved(done + rest, missing, NameDecision(c, target, open, rest, 0, missing).error)
  {
  }

  /** One unfolding of the reference scan at a construct it replaces. */
  lemma {:induction false} NameUnfold(c: Config, target: Target, open: Opening, s: string, missing: seq<string>,
                                      pos: nat, endPos: nat, a: Namespaced)
    requires NameDecision(c, target, open, s, 0, missing) == Substitute(pos, endPos, a)
    ensures pos <= endPos < |s|
    ensures var after := s[endPos + 1..];
            var d := SkipCount(endPos - pos, |a.name|, |after|);
            var r := NameRewrite(c, target, open, after[d..], a.missing);
            NameRewrite(c, target, open, s, missing) == Resolved(s[..pos] + (a.name + (after[..d] + r.text)), r.missing, r.error)
  {
  }

  /** One unfolding of `NamePieces` at a construct the scan replaces. */
  lemma {:induction false} NamePiecesUnfold(c: Config, target: Target, open: Opening, s: string, missing: seq<string>,
                                            pos: nat, endPos: nat, a: Namespaced)
    requires NameDecision(c, target, open, s, 0, missing) == Substitute(pos, endPos, a)
    ensures pos <= endPos < |s|
    ensures var rest := s[endPos + 1..];
            var d := SkipCount(endPos - pos, |a.name|, |rest|);
            NamePieces(c, target, open, s, missing) == Prepended(s, pos, endPos, a.name, d, NamePieces(c, target, open, rest[d..], a.missing))
  {
  }

  /**
    Replacing a construct by its resolved name, and passing over the
    characters the resumed search skips, keeps the outcome.
   */
  lemma {:induction false} NameSubstituteStep(c: Config, target: Target, open: Opening, done: string, rest: string, missing: seq<string>,
                                              pos: nat, endPos: nat, a: Namespaced)
    requires NameDecision(c, target, open, rest, 0, missing) == Substitute(pos, endPos, a)
    ensures pos <= endPos < |rest|
    ensures var after := rest[endPos + 1..];
            var d := SkipCount(endPos - pos, |a.name|, |after|);
            NameFinish(c, target, open, done + (rest[..pos] + (a.name + after[..d])), after[d..], a.missing)
            == NameFinish(c, target, open, done, rest, missing)
  {
    NameUnfold(c, target, open, rest, missing, pos, endPos, a);
    var after := rest[endPos + 1..];
    var d := SkipCount(endPos - pos, |a.name|, |after|);
    var r := NameRewrite(c, target, open, after[d..], a.missing);
    Regroup(done, rest[..pos], a.name, after[..d], r.text);
  }

  /** `NameSubstituteStep`, for the text and the rest the loop holds after the step. */
  lemma {:induction false} NameReplaceStep(c: Config, target: Target, open: Opening, done: string, rest: string, missing: seq<string>,
                                           pos: nat, endPos: nat, a: Namespaced, d: nat, nextDone: string, nextRest: string)
    requires NameDecision(c, target, open, rest, 0, missing) == Substitute(pos, endPos, a)
    requires d == SkipCount(endPos - pos, |a.name|, |rest[endPos + 1..]|)
    requires nextDone == done + (rest[..pos] + (a.name + rest[endPos + 1..][..d]))
    requires nextRest == rest[endPos + 1..][d..]
    ensures NameFinish(c, target, open, nextDone, nextRest, a.missing) == NameFinish(c, target, open, done, rest, missing)
  {
    NameSubstituteStep(c, target, open, done, rest, missing, pos, endPos, a);
  }

  /**
    Every name `AddTargetNamespace` gives is inert: no `$<` starts inside it,
    whatever text follows. The loop resumes inside a name longer than the
    construct it replaced; with this, what it finds there is what it finds
    after the name.
   */
  ghost predicate InertNames(c: Config, target: Target)
  {
    forall arg, m :: AddTargetNamespace(c, arg, target, m).found ==> Inert(AddTargetNamespace(c, arg, target, m).name)
  }

  /**
    The text `next` after `input.replace(pos, endPos - pos + 1, name)`, cut
    `d` characters past the name: before the cut, the final text, the part
    of the rest before the construct, the name and the skipped characters;
    after it, the rest of the old text.
   */
  lemma {:induction false} ReplaceConstruct(input: string, resume: nat, pos: nat, endPos: nat, name: string, d: nat, next: string)
    requires resume <= pos <= endPos < |input|
    requires d <= |input| - endPos - 1
    requires IsReplacement(next, input, pos, endPos - pos + 1, name)
    ensures var rest := input[resume..];
            var after := rest[endPos - resume + 1..];
            && next[..pos + |name| + d] == input[..resume] + (rest[..pos - resume] + (name + after[..d]))
            && next[pos + |name| + d..] == after[d..]
  {
    var rest := input[resume..];
    var after := rest[endPos - resume + 1..];
    assert after == input[endPos + 1..] == next[pos + |name|..];
    assert input[..pos] == input[..resume] + rest[..pos - resume];
    assert next[..pos + |name| + d] == next[..pos] + next[pos..pos + |name|] + after[..d];
  }

  /**
    The loop resumes at the old index of `>`. Between there and the end of
    an inert name no opening starts, so the search finds what a search from
    the first character after the skipped ones finds.
   */
  lemma {:induction false} ResumeFind(open: Opening, next: string, pos: nat, endPos: nat, name: string, restLength: nat)
    requires pos <= endPos
    requires |next| == pos + |name| + restLength
    requires next[pos..pos + |name|] == name
    requires Inert(name)
    ensures Find(next, open, endPos) == Find(next, open, pos + |name| + SkipCount(endPos - pos, |name|, restLength))
  {
    var resume := pos + |name| + SkipCount(endPos - pos, |name|, restLength);
    if endPos < resume {
      forall q | endPos <= q < resume
        ensures !MatchAt(next, open, q)
      {
        if q + |open| <= |next| {
          var w := next[q..q + |open|];
          var i := q - pos;
          assert w[0] == next[q] == name[i];
          if name[i] == '$' {
            assert w[1] == next[q + 1] == name[i + 1];
          }
          assert w != open;
        }
      }
      FindSkip(next, open, endPos, resume);
    }
  }

  /** When the scan from `resume` stops, the scan of the rest stops for the same reason. */
  lemma {:induction false} NameHalt(c: Config, target: Target, open: Opening, input: string, resume: nat, missing: seq<string>,
                                    done: string, rest: string)
    requires resume <= |input|
    requires done == input[..resume] && rest == input[resume..]
    requires NameDecision(c, target, open, input, resume, missing).Stop?
    ensures NameDecision(c, target, open, rest, 0, missing) == NameDecision(c, target, open, input, resume, missing)
    ensures done + rest == input
  {
    NameDecisionShift(c, target, open, input, resume, missing);
  }

  /**
    A construct `input[pos..endPos + 1]` that the scan from `resume`
    replaces: the scan of the rest replaces it too, and the name that
    replaces it is inert.
   */
  lemma {:induction false} NameAdvanceAt(c: Config, target: Target, open: Opening, input: string, resume: nat, missing: seq<string>,
                                         pos: nat, endPos: nat, done: string, rest: string)
    requires InertNames(c, target)
    requires resume <= |input|
    requires done == input[..resume] && rest == input[resume..]
    requires NameDecision(c, target, open, input, resume, missing).Substitute?
    requires NameDecision(c, target, open, input, resume, missing).pos == pos
    requires NameDecision(c, target, open, input, resume, missing).endPos == endPos
    ensures resume <= pos <= endPos < |input|
    ensures var a := NameDecision(c, target, open, input, resume, missing).resolved;
            && NameDecision(c, target, open, rest, 0, missing) == Substitute(pos - resume, endPos - resume, a)
            && Inert(a.name)
  {
    NameDecisionShift(c, target, open, input, resume, missing);
    NameDecisionSpec(c, target, open, input, resume, missing);
  }

  /**
    The text `next` after the construct `input[pos..endPos + 1]` is replaced
    by an inert `name`, cut where the search really goes on (`d` characters
    after the name); the search from the old index of `>` finds what the
    search from the cut finds.
   */
  lemma {:induction false} ReplacedText(open: Opening, input: string, resume: nat, pos: nat, endPos: nat, name: string,
                                        done: string, rest: string, next: string)
    requires resume <= pos <= endPos < |input|
    requires done == input[..resume] && rest == input[resume..]
    requires Inert(name)
    requires IsReplacement(next, input, pos, endPos - pos + 1, name)
    ensures var after := rest[endPos - resume + 1..];
            var d := SkipCount(endPos - pos, |name|, |after|);
            && pos + |name| + d <= |next|
            && done + (rest[..pos - resume] + (name + after[..d])) == next[..pos + |name| + d]
            && after[d..] == next[pos + |name| + d..]
            && Find(next, open, endPos) == Find(next, open, pos + |name| + d)
  {
    var after := rest[endPos - resume + 1..];
    var d := SkipCount(endPos - pos, |name|, |after|);
    ReplaceConstruct(input, resume, pos, endPos, name, d, next);
    ResumeFind(open, next, pos, endPos, name, |after|);
  }

  /** `ReplacedText`, for the text and the rest the loop holds after the step. */
  lemma {:induction false} NameReplaced(open: Opening, input: string, resume: nat, pos: nat, endPos: nat, name: string,
                                        done: string, rest: string, next: string, d: nat, nextResume: nat, nextDone: string, nextRest: string)
    requires resume <= pos <= endPos < |input|
    requires done == input[..resume] && rest == input[resume..]
    requires Inert(name)
    requires IsReplacement(next, input, pos, endPos - pos + 1, name)
    requires d == SkipCount(endPos - pos, |name|, |rest[endPos - resume + 1..]|)
    requires nextResume == pos + |name| + d
    requires nextDone == done + (rest[..pos - resume] + (name + rest[endPos - resume + 1..][..d]))
    requires nextRest == rest[endPos - resume + 1..][d..]
    ensures nextResume <= |next|
    ensures nextDone == next[..nextResume] && nextRest == next[nextResume..]
    ensures Find(next, open, endPos) == Find(next, open, nextResume)
  {
    ReplacedText(open, input, resume, pos, endPos, name, done, rest, next);
  }

  /**
    The step of the loop at a construct it replaces: the text after
    `input.replace(pos, endPos - pos + 1, name)`, cut where the reference
    scan goes on, keeps the outcome, and the search from the old index of
    `>` finds what the search from the cut finds.
   */
  lemma {:induction false} NameSubstituted(c: Config, target: Target, open: Opening, input: string, missing: seq<string>,
                                           resume: nat, pos: nat, endPos: nat, a: Namespaced, done: string, rest: string,
                                           next: string, d: nat, nextResume: nat, nextDone: string, nextRest: string)
    requires resume <= pos <= endPos < |input|
    requires done == input[..resume] && rest == input[resume..]
    requires NameDecision(c, target, open, rest, 0, missing) == Substitute(pos - resume, endPos - resume, a)
    requires Inert(a.name)
    requires IsReplacement(next, input, pos, endPos - pos + 1, a.name)
    requires d == SkipCount(endPos - pos, |a.name|, |rest[endPos - resume + 1..]|)
    requires nextResume == pos + |a.name| + d
    requires nextDone == done + (rest[..pos - resume] + (a.name + rest[endPos - resume + 1..][..d]))
    requires nextRest == rest[endPos - resume + 1..][d..]
    ensures nextResume <= |next|
    ensures nextDone == next[..nextResume] && nextRest == next[nextResume..]
    ensures Find(next, open, endPos) == Find(next, open, nextResume)
    ensures |nextRest| < |rest|
    ensures NameFinish(c, target, open, nextDone, nextRest, a.missing) == NameFinish(c, target, open, done, rest, missing)
  {
    var p, e := pos - resume, endPos - resume;
    assert e - p == endPos - pos;
    NameReplaceStep(c, target, open, done, rest, missing, p, e, a, d, nextDone, nextRest);
    NameReplaced(open, input, resume, pos, endPos, a.name, done, rest, next, d, nextResume, nextDone, nextRest);
  }

  // ---------------------------------------------------------------------------
  // Both scans
  // ---------------------------------------------------------------------------

  /**
    What `ResolveTargetsInGeneratorExpression` computes: the
    `$<TARGET_PROPERTY:` scan, then the `$<TARGET_NAME:` scan of its result.
   */
  ghost function ResolveExpression(c: Config, target: Target, input: string, missing: seq<string>): Resolved
  {
    var p := PropertyRewrite(c, target, TargetPropertyOpen, input, missing);
    NameRewrite(c, target, TargetNameOpen, p.text, p.missing)
  }

  /** Resolving one generator expression never drops an entry of the missing-targets list. */
  lemma ResolveExpressionGrows(c: Config, target: Target, input: string, missing: seq<string>)
    ensures missing <= ResolveExpression(c, target, input, missing).missing
  {
    PropertyRewriteSound(c, target, TargetPropertyOpen, input, missing);
    var p := PropertyRewrite(c, target, TargetPropertyOpen, input, missing);
    NameRewriteSound(c, target, TargetNameOpen, p.text, p.missing);
  }
}
