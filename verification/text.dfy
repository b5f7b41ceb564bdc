/**
 * String helpers the screening pipeline relies on: Python's substring test
 * `needle in hay`, `unique()` in order of first appearance, `",".join` and its
 * inverse `split`, and the lexicographic order in which `groupby` visits keys.
 */
module Text {

  /** `needle` occurs in `hay` starting at position `k`. */
  ghost predicate OccursAt(needle: string, hay: string, k: int) {
    0 <= k && k + |needle| <= |hay| && hay[k..k + |needle|] == needle
  }

  /** Python's `needle in hay` for strings; the empty string occurs everywhere. */
  function Contains(hay: string, needle: string): (r: bool)
    ensures |needle| == 0 ==> r
    ensures r ==> |needle| <= |hay|
    decreases |hay|
  {
    if needle <= hay then true
    else if |hay| == 0 then false
    else Contains(hay[1..], needle)
  }

  /** The substring test is true exactly when the needle occurs at some position. */
  lemma {:induction false} ContainsIffOccurs(hay: string, needle: string)
    ensures Contains(hay, needle) <==> exists k :: OccursAt(needle, hay, k)
    decreases |hay|
  {
    if needle <= hay {
      assert OccursAt(needle, hay, 0);
    } else if |hay| == 0 {
      assert |needle| > 0;
    } else {
      ContainsIffOccurs(hay[1..], needle);
      if exists k :: OccursAt(needle, hay[1..], k) {
        var k :| OccursAt(needle, hay[1..], k);
        assert hay[1..][k..k + |needle|] == hay[k + 1..k + 1 + |needle|];
        assert OccursAt(needle, hay, k + 1);
      }
      if exists k :: OccursAt(needle, hay, k) {
        var k :| OccursAt(needle, hay, k);
        assert k == 0 ==> needle <= hay;
        assert hay[1..][k - 1..k - 1 + |needle|] == hay[k..k + |needle|];
        assert OccursAt(needle, hay[1..], k - 1);
      }
    }
  }

  /** The position of the first occurrence of `x` in `xs`. */
  function FirstIndex<T(==)>(xs: seq<T>, x: T): (k: nat)
    requires x in xs
    ensures k < |xs| && xs[k] == x && x !in xs[..k]
  {
    if xs[0] == x then 0
    else
      var k := FirstIndex(xs[1..], x);
      assert xs[..k + 1] == [xs[0]] + xs[1..][..k];
      k + 1
  }

  /** `unique()`: the distinct elements of `xs`, in order of first appearance. */
  function Distinct(xs: seq<string>): (r: seq<string>)
    ensures forall x :: x in r <==> x in xs
    ensures forall i, j :: 0 <= i < j < |r| ==> r[i] != r[j]
  {
    if |xs| == 0 then []
    else
      var front := Distinct(xs[..|xs| - 1]);
      var last := xs[|xs| - 1];
      assert xs == xs[..|xs| - 1] + [last];
      if last in front then front else front + [last]
  }

  /** `unique()` lists every element at the place where it first appears in `xs`. */
  lemma {:induction false} DistinctKeepsFirstAppearanceOrder(xs: seq<string>, i: nat, j: nat)
    requires i < j < |Distinct(xs)|
    ensures FirstIndex(xs, Distinct(xs)[i]) < FirstIndex(xs, Distinct(xs)[j])
  {
    var n := |xs| - 1;
    var front := xs[..n];
    var r := Distinct(xs);
    assert xs == front + [xs[n]];
    FirstIndexOfPrefix(xs, n, r[i]);
    if j < |Distinct(front)| {
      FirstIndexOfPrefix(xs, n, r[j]);
      DistinctKeepsFirstAppearanceOrder(front, i, j);
    } else {
      assert r[j] == xs[n] && r[j] !in front;
      assert FirstIndex(xs, r[j]) == n;
    }
  }

  /** The first occurrence of an element of a prefix lies in that prefix. */
  lemma {:induction false} FirstIndexOfPrefix<T>(xs: seq<T>, n: nat, x: T)
    requires n <= |xs| && x in xs[..n]
    ensures FirstIndex(xs, x) == FirstIndex(xs[..n], x)
  {
    if xs[0] != x {
      assert xs[..n][1..] == xs[1..][..n - 1];
      FirstIndexOfPrefix(xs[1..], n - 1, x);
    }
  }

  /** `sep.join(parts)`: the first piece comes first, and a separator follows it when more pieces come. */
  function Join(parts: seq<string>, sep: char): (r: string)
    ensures |parts| > 0 ==> parts[0] <= r
    ensures |parts| > 1 ==> |parts[0]| < |r| && r[|parts[0]|] == sep
  {
    if |parts| == 0 then ""
    else if |parts| == 1 then parts[0]
    else parts[0] + [sep] + Join(parts[1..], sep)
  }

  /** `s.split(sep)`: the pieces between the separators; always at least one piece. */
  function Split(s: string, sep: char): (r: seq<string>)
    ensures |r| > 0
  {
    if |s| == 0 then [""]
    else
      var rest := Split(s[1..], sep);
      if s[0] == sep then [""] + rest else [[s[0]] + rest[0]] + rest[1..]
  }

  /** Joining the pieces of a split gives back the string. */
  lemma {:induction false} JoinSplit(s: string, sep: char)
    ensures Join(Split(s, sep), sep) == s
  {
    if |s| > 0 {
      var rest := Split(s[1..], sep);
      JoinSplit(s[1..], sep);
      if s[0] != sep {
        var head := [[s[0]] + rest[0]] + rest[1..];
        if |rest| > 1 {
          assert head[1..] == rest[1..];
          assert Join(head, sep) == [s[0]] + rest[0] + [sep] + Join(rest[1..], sep);
        }
        assert Join(head, sep) == [s[0]] + Join(rest, sep);
        assert s == [s[0]] + s[1..];
      } else {
        assert ([""] + rest)[1..] == rest;
        assert s == [sep] + s[1..];
      }
    }
  }

  /** A string without the separator is a single piece. */
  lemma {:induction false} SplitWithoutSeparator(p: string, sep: char)
    requires sep !in p
    ensures Split(p, sep) == [p]
  {
    if |p| > 0 {
      SplitWithoutSeparator(p[1..], sep);
      assert p == [p[0]] + p[1..];
    }
  }

  /** Splitting `p + sep + t` cuts at that separator when `p` has none. */
  lemma {:induction false} SplitAtFirstSeparator(p: string, t: string, sep: char)
    requires sep !in p
    ensures Split(p + [sep] + t, sep) == [p] + Split(t, sep)
  {
    var s := p + [sep] + t;
    if |p| == 0 {
      assert s[1..] == t;
    } else {
      assert s[1..] == p[1..] + [sep] + t;
      SplitAtFirstSeparator(p[1..], t, sep);
      assert [p[0]] + p[1..] == p;
    }
  }

  /** Splitting a join gives back the pieces, provided none of them holds the separator. */
  lemma {:induction false} SplitJoin(parts: seq<string>, sep: char)
    requires |parts| > 0
    requires forall k :: 0 <= k < |parts| ==> sep !in parts[k]
    ensures Split(Join(parts, sep), sep) == parts
  {
    if |parts| == 1 {
      SplitWithoutSeparator(parts[0], sep);
    } else {
      SplitJoin(parts[1..], sep);
      SplitAtFirstSeparator(parts[0], Join(parts[1..], sep), sep);
      assert parts == [parts[0]] + parts[1..];
    }
  }

  /** Python's `a < b` on strings: lexicographic by code point, a proper prefix first. */
  predicate Below(a: string, b: string) {
    if |a| == 0 then |b| > 0
    else if |b| == 0 then false
    else if a[0] != b[0] then a[0] < b[0]
    else Below(a[1..], b[1..])
  }

  lemma {:induction false} BelowIrreflexive(a: string)
    ensures !Below(a, a)
  {
    if |a| > 0 {
      BelowIrreflexive(a[1..]);
    }
  }

  lemma {:induction false} BelowTransitive(a: string, b: string, c: string)
    requires Below(a, b) && Below(b, c)
    ensures Below(a, c)
  {
    if |a| > 0 && |b| > 0 && |c| > 0 && a[0] == b[0] && b[0] == c[0] {
      BelowTransitive(a[1..], b[1..], c[1..]);
    }
  }

  lemma {:induction false} BelowTotal(a: string, b: string)
    requires a != b
    ensures Below(a, b) || Below(b, a)
  {
    if |a| > 0 && |b| > 0 && a[0] == b[0] {
      assert a == [a[0]] + a[1..] && b == [b[0]] + b[1..];
      BelowTotal(a[1..], b[1..]);
    }
  }

  /** Every earlier key is strictly below every later one. */
  ghost predicate StrictlyAscending(keys: seq<string>) {
    forall i, j :: 0 <= i < j < |keys| ==> Below(keys[i], keys[j])
  }

  /** Inserts a new key into an ascending list of keys. */
  function Insert(x: string, sorted: seq<string>): (r: seq<string>)
    requires StrictlyAscending(sorted) && x !in sorted
    ensures StrictlyAscending(r)
    ensures forall y :: y in r <==> y == x || y in sorted
    ensures |r| == |sorted| + 1
  {
    if |sorted| == 0 then [x]
    else if Below(x, sorted[0]) then
      forall j | 0 < j < |sorted| ensures Below(x, sorted[j]) {
        BelowTransitive(x, sorted[0], sorted[j]);
      }
      [x] + sorted
    else
      BelowTotal(x, sorted[0]);
      var rest := Insert(x, sorted[1..]);
      assert forall y :: y in sorted <==> y == sorted[0] || y in sorted[1..];
      assert forall j :: 0 <= j < |rest| ==> Below(sorted[0], rest[j]) by {
        forall j | 0 <= j < |rest| ensures Below(sorted[0], rest[j]) {
          assert rest[j] in rest;
          if rest[j] != x {
            var m :| 0 <= m < |sorted| - 1 && sorted[1..][m] == rest[j];
          }
        }
      }
      [sorted[0]] + rest
  }

  /** `groupby(...)` key order: the distinct keys of `xs`, ascending. */
  function SortedDistinct(xs: seq<string>): (r: seq<string>)
    ensures StrictlyAscending(r)
    ensures forall y :: y in r <==> y in xs
  {
    if |xs| == 0 then []
    else
      var front := SortedDistinct(xs[..|xs| - 1]);
      var last := xs[|xs| - 1];
      assert xs == xs[..|xs| - 1] + [last];
      if last in front then front else Insert(last, front)
  }
}
