/**
  The order in which `std::map<std::string, ...>` and `std::set<std::string>`
  are iterated: byte-wise lexicographic order on strings, and the sequence of
  the keys of a finite set in that order.
 */
module Ordering {

  /** `a < b` as `std::string::compare` decides it. */
  predicate Less(a: string, b: string)
  {
    if a == [] then b != []
    else if b == [] then false
    else a[0] < b[0] || (a[0] == b[0] && Less(a[1..], b[1..]))
  }

  lemma {:induction false} LessIrreflexive(a: string)
    ensures !Less(a, a)
  {
    if a != [] {
      LessIrreflexive(a[1..]);
    }
  }

  lemma {:induction false} LessTransitive(a: string, b: string, c: string)
    requires Less(a, b) && Less(b, c)
    ensures Less(a, c)
  {
    if a != [] && b != [] && c != [] && a[0] == b[0] && b[0] == c[0] {
      LessTransitive(a[1..], b[1..], c[1..]);
    }
  }

  lemma {:induction false} LessTotal(a: string, b: string)
    requires a != b
    ensures Less(a, b) || Less(b, a)
  {
    if a != [] && b != [] && a[0] == b[0] {
      assert a == [a[0]] + a[1..] && b == [b[0]] + b[1..];
      LessTotal(a[1..], b[1..]);
    }
  }

  /** `k` is the smallest element of `s`. */
  predicate IsLeast(k: string, s: set<string>)
  {
    k in s && forall x :: x in s && x != k ==> Less(k, x)
  }

  /** Every non-empty finite set of strings has a least element. */
  lemma {:induction false} LeastExists(s: set<string>)
    requires s != {}
    ensures exists k :: IsLeast(k, s)
    decreases |s|
  {
    var x :| x in s;
    if s == {x} {
      assert IsLeast(x, s);
    } else {
      LeastExists(s - {x});
      var k :| IsLeast(k, s - {x});
      if Less(k, x) {
        assert IsLeast(k, s);
      } else {
        LessTotal(k, x);
        forall y | y in s && y != x
          ensures Less(x, y)
        {
          if y != k {
            LessTransitive(x, k, y);
          }
        }
        assert IsLeast(x, s);
      }
    }
  }

  lemma LeastUnique(k1: string, k2: string, s: set<string>)
    requires IsLeast(k1, s) && IsLeast(k2, s)
    ensures k1 == k2
  {
    if k1 != k2 {
      LessIrreflexive(k1);
      LessTransitive(k1, k2, k1);
    }
  }

  /** The elements of `s` in iteration order. */
  ghost function SortedKeys(s: set<string>): (r: seq<string>)
    decreases |s|
  {
    if s == {} then []
    else
      LeastExists(s);
      var k :| IsLeast(k, s);
      [k] + SortedKeys(s - {k})
  }

  /** Taking the least element first is how `SortedKeys` unfolds. */
  lemma SortedKeysFirst(k: string, s: set<string>)
    requires IsLeast(k, s)
    ensures SortedKeys(s) == [k] + SortedKeys(s - {k})
  {
    LeastExists(s);
    var k' :| IsLeast(k', s) && SortedKeys(s) == [k'] + SortedKeys(s - {k'});
    LeastUnique(k, k', s);
  }

  /**
    Iteration visits every element exactly once and in strictly increasing
    order: the emitted property blocks are reproducible.
   */
  lemma {:induction false} SortedKeysSpec(s: set<string>)
    ensures |SortedKeys(s)| == |s|
    ensures forall x :: x in s <==> x in SortedKeys(s)
    ensures forall i, j :: 0 <= i < j < |SortedKeys(s)| ==> Less(SortedKeys(s)[i], SortedKeys(s)[j])
    decreases |s|
  {
    if s != {} {
      LeastExists(s);
      var k :| IsLeast(k, s);
      SortedKeysFirst(k, s);
      SortedKeysSpec(s - {k});
      var r := SortedKeys(s);
      forall i, j | 0 <= i < j < |r|
        ensures Less(r[i], r[j])
      {
        if i == 0 {
          assert r[j] in s - {k};
        } else {
          assert r[i] == SortedKeys(s - {k})[i - 1] && r[j] == SortedKeys(s - {k})[j - 1];
        }
      }
    }
  }

  /** Taking the least remaining element moves it from the rest to the part already visited. */
  lemma SortedKeysStep(all: set<string>, done: seq<string>, rest: set<string>, k: string)
    requires SortedKeys(all) == done + SortedKeys(rest)
    requires IsLeast(k, rest)
    ensures SortedKeys(all) == (done + [k]) + SortedKeys(rest - {k})
  {
    SortedKeysFirst(k, rest);
    assert done + ([k] + SortedKeys(rest - {k})) == (done + [k]) + SortedKeys(rest - {k});
  }
}
