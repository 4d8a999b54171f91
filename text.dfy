/**
  String primitives of the C++ standard library and of the CMake utility layer
  that the export generator relies on: `std::string::find`, prefix tests,
  `;`-joined lists, ASCII upper-casing and the decimal rendering of a count.
 */
module Text {
  import opened Wrappers

  /** `pat` occurs in `s` starting at index `q`. */
  predicate MatchAt(s: string, pat: string, q: nat)
  {
    q + |pat| <= |s| && s[q..q + |pat|] == pat
  }

  /**
    `MatchAt`, compared character by character from the `i`-th character of
    the pattern on: how `Find` tests each position (a comparison of slices
    against a literal pattern is costly to reason about at every step of a
    search).
   */
  predicate Matches(s: string, pat: string, q: nat, i: nat)
    decreases |pat| - i
  {
    i >= |pat| || (q + i < |s| && s[q + i] == pat[i] && Matches(s, pat, q, i + 1))
  }

  lemma {:induction false} MatchesIff(s: string, pat: string, q: nat, i: nat)
    requires q + |pat| <= |s| && i <= |pat|
    ensures Matches(s, pat, q, i) <==> s[q + i..q + |pat|] == pat[i..]
    ensures i == 0 ==> (Matches(s, pat, q, i) <==> MatchAt(s, pat, q))
    decreases |pat| - i
  {
    assert pat[0..] == pat;
    if i < |pat| {
      MatchesIff(s, pat, q, i + 1);
      assert s[q + i..q + |pat|] == [s[q + i]] + s[q + i + 1..q + |pat|];
      assert pat[i..] == [pat[i]] + pat[i + 1..];
    }
  }

  /**
    `s.find(pat, from)`: the lowest index at or after `from` where `pat`
    occurs, or `None` for `std::string::npos`.
   */
  function Find(s: string, pat: string, from: nat): (r: Option<nat>)
    decreases |s| - from
    ensures r.Some? ==> from <= r.value && r.value + |pat| <= |s|
  {
    if from + |pat| > |s| then None
    else if Matches(s, pat, from, 0) then Some(from)
    else Find(s, pat, from + 1)
  }

  /** `find` returns the first occurrence at or after `from`, and `npos` only when there is none. */
  lemma {:induction false} FindSpec(s: string, pat: string, from: nat)
    ensures Find(s, pat, from).Some? ==> MatchAt(s, pat, Find(s, pat, from).value)
    ensures Find(s, pat, from).Some? ==> forall q :: from <= q < Find(s, pat, from).value ==> !MatchAt(s, pat, q)
    ensures Find(s, pat, from).None? ==> forall q :: from <= q ==> !MatchAt(s, pat, q)
    decreases |s| - from
  {
    if from + |pat| <= |s| {
      MatchesIff(s, pat, from, 0);
      if !Matches(s, pat, from, 0) {
        FindSpec(s, pat, from + 1);
      }
    }
  }

  /** `a < b` on two results of `find`, where `npos` is larger than every index. */
  predicate PosLess(a: Option<nat>, b: Option<nat>)
  {
    a.Some? && (b.None? || a.value < b.value)
  }

  /** `s.find(pat) != npos`. */
  predicate Contains(s: string, pat: string)
  {
    Find(s, pat, 0).Some?
  }

  lemma ContainsIff(s: string, pat: string)
    ensures Contains(s, pat) <==> exists q :: MatchAt(s, pat, q)
  {
    FindSpec(s, pat, 0);
    if Contains(s, pat) {
      var q := Find(s, pat, 0).value;
      assert MatchAt(s, pat, q);
      assert exists q' :: MatchAt(s, pat, q');
    } else {
      forall q: nat ensures !MatchAt(s, pat, q) {
      }
    }
  }

  /** Adds `k` to a found position, leaving `npos` alone. */
  function Shift(r: Option<nat>, k: nat): Option<nat>
  {
    if r.Some? then Some(r.value + k) else None
  }

  /** Searching `s` from `j` is searching the suffix `s[from..]` from `j - from`. */
  lemma {:induction false} FindShift(s: string, pat: string, from: nat, j: nat)
    requires from <= j && from <= |s|
    ensures Find(s, pat, j) == Shift(Find(s[from..], pat, j - from), from)
    decreases |s| - j
  {
    var t := s[from..];
    if j + |pat| <= |s| {
      assert t[j - from..j - from + |pat|] == s[j..j + |pat|];
      MatchesIff(s, pat, j, 0);
      MatchesIff(t, pat, j - from, 0);
      if !Matches(s, pat, j, 0) {
        FindShift(s, pat, from, j + 1);
      }
    }
  }

  /** Searching from `j` finds the same as searching a longer string from `j`, when the hit lies in the common prefix. */
  lemma {:induction false} FindPrefix(s: string, t: string, pat: string, j: nat, p: nat)
    requires Find(s, pat, j) == Some(p)
    ensures Find(s + t, pat, j) == Some(p)
    decreases p - j
  {
    assert (s + t)[p..p + |pat|] == s[p..p + |pat|];
    MatchesIff(s + t, pat, p, 0);
    MatchesIff(s, pat, p, 0);
    if j < p {
      assert (s + t)[j..j + |pat|] == s[j..j + |pat|];
      MatchesIff(s + t, pat, j, 0);
      MatchesIff(s, pat, j, 0);
      FindPrefix(s, t, pat, j + 1, p);
    }
  }

  /** Positions where `pat` does not occur can be passed over. */
  lemma {:induction false} FindSkip(s: string, pat: string, from: nat, j: nat)
    requires from <= j
    requires forall q :: from <= q < j ==> !MatchAt(s, pat, q)
    ensures Find(s, pat, from) == Find(s, pat, j)
    decreases j - from
  {
    if from < j && from + |pat| <= |s| {
      MatchesIff(s, pat, from, 0);
      FindSkip(s, pat, from + 1, j);
    }
  }

  /** The search from `from` finds `p` when `pat` occurs at `p` and nowhere from `from` up to `p`. */
  lemma {:induction false} FindFirst(s: string, pat: string, from: nat, p: nat)
    requires from <= p && MatchAt(s, pat, p)
    requires forall q :: from <= q < p ==> !MatchAt(s, pat, q)
    ensures Find(s, pat, from) == Some(p)
  {
    FindSkip(s, pat, from, p);
    MatchesIff(s, pat, p, 0);
  }

  /** The first occurrence of `pat` is still the first one in a prefix that contains it. */
  lemma {:induction false} FindInPrefix(s: string, pat: string, n: nat)
    requires Find(s, pat, 0).Some? && Find(s, pat, 0).value + |pat| <= n <= |s|
    ensures Find(s[..n], pat, 0) == Find(s, pat, 0)
  {
    var p := Find(s, pat, 0).value;
    var t := s[..n];
    FindSpec(s, pat, 0);
    assert t[p..p + |pat|] == s[p..p + |pat|];
    forall q | 0 <= q < p
      ensures !MatchAt(t, pat, q)
    {
      assert !MatchAt(s, pat, q);
      assert t[q..q + |pat|] == s[q..q + |pat|];
    }
    FindFirst(t, pat, 0, p);
  }

  /**
    Every `$` of `t` is followed, inside `t`, by a character other than `<`:
    no `$<` starts anywhere in `t`, whatever text follows it.
   */
  predicate Inert(t: string)
  {
    forall q :: 0 <= q < |t| && t[q] == '$' ==> q + 1 < |t| && t[q + 1] != '<'
  }

  /** Searching `t + r` for a pattern that starts with `$<`, when `t` is inert: no occurrence starts inside `t`. */
  lemma {:induction false} FindAfterInert(t: string, r: string, pat: string)
    requires |pat| >= 2 && pat[0] == '$' && pat[1] == '<'
    requires Inert(t)
    ensures Find(t + r, pat, 0) == Shift(Find(r, pat, 0), |t|)
  {
    var s := t + r;
    forall q | 0 <= q < |t|
      ensures !MatchAt(s, pat, q)
    {
      if q + |pat| <= |s| {
        var w := s[q..q + |pat|];
        assert w[0] == t[q] && w[1] == s[q + 1];
        if t[q] == '$' {
          assert s[q + 1] == t[q + 1];
        }
        assert w != pat;
      }
    }
    FindSkip(s, pat, 0, |t|);
    assert s[|t|..] == r;
    FindShift(s, pat, |t|, |t|);
  }

  /**
    `r` is `s` with the `count` characters at `pos` replaced by `t`: the
    text before `pos`, then `t`, then the text after the replaced range.
   */
  predicate IsReplacement(r: string, s: string, pos: nat, count: nat, t: string)
    requires pos + count <= |s|
  {
    && |r| == |s| - count + |t|
    && r[..pos] == s[..pos]
    && r[pos..pos + |t|] == t
    && r[pos + |t|..] == s[pos + count..]
  }

  /** `s.replace(pos, count, t)`. */
  method Replace(s: string, pos: nat, count: nat, t: string) returns (r: string)
    requires pos + count <= |s|
    ensures IsReplacement(r, s, pos, count, t)
  {
    r := s[..pos] + t + s[pos + count..];
  }

  /** Regrouping a concatenation of three strings. */
  lemma Assoc(a: string, b: string, c: string)
    ensures a + (b + c) == a + b + c
  {
  }

  /** Moving the last piece of a right-nested concatenation out. */
  lemma Regroup(v: string, w: string, x: string, y: string, z: string)
    ensures v + (w + (x + (y + z))) == v + (w + (x + y)) + z
  {
    Assoc(x, y, z);
    Assoc(w, x + y, z);
    Assoc(v, w + (x + y), z);
  }

  /** A slice of `s` is the same slice of the suffix `s[from..]`, shifted. */
  lemma SliceShift(s: string, from: nat, i: nat, j: nat)
    requires from <= i <= j <= |s|
    ensures s[i..j] == s[from..][i - from..j - from]
  {
  }

  /** `cmHasLiteralPrefix(s, p)`. */
  predicate HasPrefix(s: string, p: string)
  {
    |p| <= |s| && s[..|p|] == p
  }

  /**
    Joins `items` with `sep` between neighbours: the string the source builds
    with its `sep` variable (empty before the first item, `;` afterwards).
   */
  function Join(items: seq<string>, sep: string): (r: string)
  {
    if |items| == 0 then ""
    else if |items| == 1 then items[0]
    else Join(items[..|items| - 1], sep) + sep + items[|items| - 1]
  }

  /** Appending one item: the step of every `sep`-loop in the source. */
  lemma JoinSnoc(items: seq<string>, x: string, sep: string)
    ensures Join(items + [x], sep) == Join(items, sep) + (if items == [] then "" else sep) + x
  {
    if items != [] {
      assert (items + [x])[..|items|] == items;
    }
  }

  /** Number of occurrences of the character `c` in `s`. */
  function CountChar(s: string, c: char): nat
  {
    if s == [] then 0 else (if s[0] == c then 1 else 0) + CountChar(s[1..], c)
  }

  lemma {:induction false} CountCharConcat(a: string, b: string, c: char)
    ensures CountChar(a + b, c) == CountChar(a, c) + CountChar(b, c)
  {
    if a == [] {
      assert a + b == b;
    } else {
      assert (a + b)[1..] == a[1..] + b;
      CountCharConcat(a[1..], b, c);
    }
  }

  /**
    A `;`-joined list of items that contain no `;` has exactly one `;` fewer
    than it has items: joining keeps the item count.
   */
  lemma {:induction false} JoinItemCount(items: seq<string>)
    requires items != []
    requires forall i :: 0 <= i < |items| ==> CountChar(items[i], ';') == 0
    ensures CountChar(Join(items, ";"), ';') == |items| - 1
    decreases |items|
  {
    if |items| > 1 {
      var front := items[..|items| - 1];
      JoinItemCount(front);
      CountCharConcat(Join(front, ";") + ";", items[|items| - 1], ';');
      CountCharConcat(Join(front, ";"), ";", ';');
      assert CountChar(";", ';') == 1 by {
        assert ";"[1..] == [];
      }
    }
  }

  /** `toupper` in the C locale, applied to one character. */
  function UpperChar(c: char): (u: char)
    ensures 'a' <= c <= 'z' ==> 'A' <= u <= 'Z' && u as int == c as int - 32
    ensures !('a' <= c <= 'z') ==> u == c
  {
    if 'a' <= c <= 'z' then (c as int - 32) as char else c
  }

  /** `cmSystemTools::UpperCase`: every lower-case ASCII letter upper-cased, nothing else changed. */
  function Upper(s: string): (u: string)
    ensures |u| == |s|
    ensures forall i :: 0 <= i < |s| ==> u[i] == UpperChar(s[i])
  {
    if s == [] then [] else [UpperChar(s[0])] + Upper(s[1..])
  }

  /** Decimal rendering of a count, as `ostream << unsigned` writes it. */
  function Decimal(n: nat): (r: string)
    decreases n
  {
    if n < 10 then [DigitChar(n)] else Decimal(n / 10) + [DigitChar(n % 10)]
  }

  function DigitChar(d: nat): (c: char)
    requires d < 10
    ensures '0' <= c <= '9' && c as int - '0' as int == d
  {
    ('0' as int + d) as char
  }

  /** Reads back a string of decimal digits. */
  function DigitsValue(s: string): nat
    requires forall i :: 0 <= i < |s| ==> '0' <= s[i] <= '9'
  {
    if s == [] then 0 else 10 * DigitsValue(s[..|s| - 1]) + (s[|s| - 1] as int - '0' as int)
  }

  /** The rendering is a non-empty string of digits that reads back as the number. */
  lemma {:induction false} DecimalRoundTrip(n: nat)
    ensures |Decimal(n)| > 0
    ensures forall i :: 0 <= i < |Decimal(n)| ==> '0' <= Decimal(n)[i] <= '9'
    ensures DigitsValue(Decimal(n)) == n
    decreases n
  {
    if n >= 10 {
      DecimalRoundTrip(n / 10);
      var d := Decimal(n);
      assert d[..|d| - 1] == Decimal(n / 10);
    }
  }
}
