/**
 * Lists of strings as Python handles them: the ordering `sorted` uses on
 * `str`, `sorted(set(xs))`, `sep.join(parts)` and `s.split(sep)`.
 */
module Strings {

  /**
   * Python's `a < b` on `str`: code points compared left to right, and a
   * proper prefix comes first.
   */
  predicate Below(a: string, b: string)
    decreases |a|
  {
    if |a| == 0 then |b| > 0
    else |b| > 0 && (a[0] < b[0] || (a[0] == b[0] && Below(a[1..], b[1..])))
  }

  lemma {:induction false} BelowIrreflexive(a: string)
    ensures !Below(a, a)
    decreases |a|
  {
    if |a| > 0 {
      BelowIrreflexive(a[1..]);
    }
  }

  lemma {:induction false} BelowTransitive(a: string, b: string, c: string)
    requires Below(a, b) && Below(b, c)
    ensures Below(a, c)
    decreases |a|
  {
    if |a| > 0 && a[0] == b[0] && b[0] == c[0] {
      BelowTransitive(a[1..], b[1..], c[1..]);
    }
  }

  lemma {:induction false} BelowTotal(a: string, b: string)
    ensures a == b || Below(a, b) || Below(b, a)
    decreases |a|
  {
    if |a| > 0 && |b| > 0 && a[0] == b[0] {
      BelowTotal(a[1..], b[1..]);
      if a[1..] == b[1..] {
        assert a == [a[0]] + a[1..] && b == [b[0]] + b[1..];
      }
    }
  }

  lemma BelowAsymmetric(a: string, b: string)
    requires Below(a, b)
    ensures !Below(b, a) && a != b
  {
    if Below(b, a) {
      BelowTransitive(a, b, a);
      BelowIrreflexive(a);
    }
    BelowIrreflexive(a);
  }

  /** The set of strings a list holds. */
  function Elements(s: seq<string>): set<string> {
    set x | x in s
  }

  lemma NonEmptyHasElement(s: seq<string>)
    ensures |s| > 0 ==> s[0] in Elements(s)
  {
  }

  /** Lists with the same elements agree on whether they hold the empty string. */
  lemma NoEmptyElement(xs: seq<string>, ys: seq<string>)
    requires Elements(xs) == Elements(ys)
    requires forall i :: 0 <= i < |xs| ==> xs[i] != ""
    ensures forall i :: 0 <= i < |ys| ==> ys[i] != ""
  {
    forall i | 0 <= i < |ys| ensures ys[i] != "" {
      assert ys[i] in Elements(xs);
    }
  }

  /** Dropping one of two equal entries keeps the set of elements. */
  lemma DropDuplicateKeepsElements(xs: seq<string>, i: nat, j: nat)
    requires i < |xs| && j < |xs| && i != j && xs[i] == xs[j]
    ensures Elements(xs[..j] + xs[j + 1..]) == Elements(xs)
  {
    var rest := xs[..j] + xs[j + 1..];
    forall t | t in Elements(xs) ensures t in Elements(rest) {
      var k :| 0 <= k < |xs| && xs[k] == t;
      var k' := if k == j then i else k;
      assert rest[if k' < j then k' else k' - 1] == t;
    }
    forall t | t in Elements(rest) ensures t in Elements(xs) {
      var r :| 0 <= r < |rest| && rest[r] == t;
      assert xs[if r < j then r else r + 1] == t;
    }
  }

  /** Strictly ascending, hence also free of duplicates. */
  predicate StrictlySorted(s: seq<string>) {
    forall i, j :: 0 <= i < j < |s| ==> Below(s[i], s[j])
  }

  /** Putting in front of a strictly ascending list an element below all of its entries keeps it ascending. */
  lemma ConsSorted(x: string, s: seq<string>)
    requires StrictlySorted(s)
    requires forall y :: y in Elements(s) ==> Below(x, y)
    ensures StrictlySorted([x] + s)
    ensures Elements([x] + s) == Elements(s) + {x}
  {
    var r := [x] + s;
    forall i, j | 0 <= i < j < |r| ensures Below(r[i], r[j]) {
      assert r[j] == s[j - 1];
      if i > 0 {
        assert r[i] == s[i - 1];
      } else {
        assert s[j - 1] in Elements(s);
      }
    }
  }

  /** An element below the first entry of a strictly ascending list is below every entry. */
  lemma BelowFirstBelowAll(x: string, s: seq<string>)
    requires StrictlySorted(s) && |s| > 0 && Below(x, s[0])
    ensures forall y :: y in Elements(s) ==> Below(x, y)
  {
    forall y | y in Elements(s) ensures Below(x, y) {
      var j :| 0 <= j < |s| && s[j] == y;
      if j > 0 {
        BelowTransitive(x, s[0], s[j]);
      }
    }
  }

  /** The first entry of a strictly ascending list is below every later entry. */
  lemma HeadBelowRest(s: seq<string>)
    requires StrictlySorted(s) && |s| > 0
    ensures forall y :: y in Elements(s[1..]) ==> Below(s[0], y)
    ensures Elements(s) == Elements(s[1..]) + {s[0]}
  {
    forall y | y in Elements(s[1..]) ensures Below(s[0], y) {
      var j :| 0 <= j < |s[1..]| && s[1..][j] == y;
      assert s[j + 1] == y;
    }
    assert s == [s[0]] + s[1..];
  }

  /** Adds `x` to a strictly ascending list, unless it is already there. */
  function Insert(s: seq<string>, x: string): (r: seq<string>)
    requires StrictlySorted(s)
    ensures StrictlySorted(r)
    ensures Elements(r) == Elements(s) + {x}
  {
    if |s| == 0 then [x]
    else if x == s[0] then
      NonEmptyHasElement(s);
      s
    else if Below(x, s[0]) then
      BelowFirstBelowAll(x, s);
      ConsSorted(x, s);
      [x] + s
    else
      BelowTotal(x, s[0]);
      HeadBelowRest(s);
      var tail := Insert(s[1..], x);
      ConsSorted(s[0], tail);
      [s[0]] + tail
  }

  /** `sorted(set(xs))`: the distinct elements of `xs` in ascending order. */
  function SortedDistinct(xs: seq<string>): (r: seq<string>)
    ensures StrictlySorted(r)
    ensures Elements(r) == Elements(xs)
  {
    if |xs| == 0 then []
    else
      var front := xs[..|xs| - 1];
      assert Elements(xs) == Elements(front) + {xs[|xs| - 1]} by {
        assert xs == front + [xs[|xs| - 1]];
      }
      Insert(SortedDistinct(front), xs[|xs| - 1])
  }

  /** A strictly ascending list is determined by the set of its elements. */
  lemma {:induction false} SortedListUnique(a: seq<string>, b: seq<string>)
    requires StrictlySorted(a) && StrictlySorted(b)
    requires Elements(a) == Elements(b)
    ensures a == b
    decreases |a|
  {
    if |a| == 0 {
      NonEmptyHasElement(b);
    } else {
      assert a[0] in Elements(b);
      assert b[0] in Elements(a);
      var i :| 0 <= i < |a| && a[i] == b[0];
      var j :| 0 <= j < |b| && b[j] == a[0];
      if i > 0 && j > 0 {
        BelowAsymmetric(a[0], a[i]);
      } else if i > 0 {
        BelowIrreflexive(a[0]);
      } else if j > 0 {
        BelowIrreflexive(b[0]);
      }
      assert a[0] == b[0];
      forall x ensures x in Elements(a[1..]) <==> x in Elements(b[1..]) {
        if x in Elements(a[1..]) {
          var k :| 1 <= k < |a| && a[k] == x;
          BelowAsymmetric(a[0], a[k]);
          assert x in Elements(b);
          var l :| 0 <= l < |b| && b[l] == x;
        }
        if x in Elements(b[1..]) {
          var k :| 1 <= k < |b| && b[k] == x;
          BelowAsymmetric(b[0], b[k]);
          assert x in Elements(a);
          var l :| 0 <= l < |a| && a[l] == x;
        }
      }
      SortedListUnique(a[1..], b[1..]);
      assert a == [a[0]] + a[1..] && b == [b[0]] + b[1..];
    }
  }

  /** `sorted(set(xs))` depends only on which strings `xs` holds, not on their order or repetition. */
  lemma SortedDistinctDependsOnlyOnElements(xs: seq<string>, ys: seq<string>)
    requires Elements(xs) == Elements(ys)
    ensures SortedDistinct(xs) == SortedDistinct(ys)
  {
    SortedListUnique(SortedDistinct(xs), SortedDistinct(ys));
  }

  /** `sep.join(parts)`. */
  function Join(parts: seq<string>, sep: char): string {
    if |parts| == 0 then ""
    else if |parts| == 1 then parts[0]
    else parts[0] + [sep] + Join(parts[1..], sep)
  }

  /** `s.split(sep)`: the pieces between separators; never an empty list. */
  function Split(s: string, sep: char): (pieces: seq<string>)
    ensures |pieces| > 0
  {
    if |s| == 0 then [""]
    else
      var rest := Split(s[1..], sep);
      if s[0] == sep then [""] + rest
      else [[s[0]] + rest[0]] + rest[1..]
  }

  lemma {:induction false} SplitNoSeparator(s: string, sep: char)
    requires sep !in s
    ensures Split(s, sep) == [s]
  {
    if |s| > 0 {
      SplitNoSeparator(s[1..], sep);
      assert [s[0]] + s[1..] == s;
    }
  }

  lemma {:induction false} SplitAfterPiece(a: string, sep: char, b: string)
    requires sep !in a
    ensures Split(a + [sep] + b, sep) == [a] + Split(b, sep)
    decreases |a|
  {
    var s := a + [sep] + b;
    if |a| == 0 {
      assert s[1..] == b;
    } else {
      assert s[1..] == a[1..] + [sep] + b;
      SplitAfterPiece(a[1..], sep, b);
      assert [a[0]] + a[1..] == a;
    }
  }

  /**
   * Splitting a join gives the parts back, when there is at least one part
   * and no part holds the separator (`"".split(sep)` is `[""]`, not `[]`).
   */
  lemma {:induction false} SplitJoin(parts: seq<string>, sep: char)
    requires |parts| > 0
    requires forall i :: 0 <= i < |parts| ==> sep !in parts[i]
    ensures Split(Join(parts, sep), sep) == parts
  {
    if |parts| == 1 {
      SplitNoSeparator(parts[0], sep);
    } else {
      SplitJoin(parts[1..], sep);
      SplitAfterPiece(parts[0], sep, Join(parts[1..], sep));
      assert [parts[0]] + parts[1..] == parts;
    }
  }

  /** A join is empty exactly when there is nothing to join, provided every part is non-empty. */
  lemma {:induction false} JoinEmpty(parts: seq<string>, sep: char)
    requires forall i :: 0 <= i < |parts| ==> parts[i] != ""
    ensures Join(parts, sep) == "" <==> |parts| == 0
  {
  }
}
