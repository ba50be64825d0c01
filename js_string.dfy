/**
 * The few JavaScript string and array operations the generator relies on:
 * `indexOf`/`lastIndexOf` for one character, `split(".")`, `join(".")`,
 * `startsWith`, and the default `Array.prototype.sort` on strings.
 */
module JsString {

  /** `s.indexOf(c)`, except that "not found" is reported as `|s|` instead of -1. */
  function IndexOf(s: string, c: char): (i: nat)
    ensures i <= |s|
    ensures i < |s| ==> s[i] == c
    ensures c !in s[..i]
    ensures i == |s| <==> c !in s
  {
    if s == [] then 0
    else if s[0] == c then 0
    else
      assert s == [s[0]] + s[1..];
      1 + IndexOf(s[1..], c)
  }

  /** `s.lastIndexOf(c)`: the greatest index holding `c`, or -1. */
  function LastIndexOf(s: string, c: char): (i: int)
    ensures -1 <= i < |s|
    ensures 0 <= i ==> s[i] == c && c !in s[i + 1..]
    ensures i == -1 <==> c !in s
  {
    if s == [] then -1
    else if s[|s| - 1] == c then |s| - 1
    else
      assert s == s[..|s| - 1] + [s[|s| - 1]];
      LastIndexOf(s[..|s| - 1], c)
  }

  /** `s.split(".")`: the pieces between dots; there is always at least one. */
  function Split(s: string): (r: seq<string>)
    ensures |r| >= 1
    ensures forall i :: 0 <= i < |r| ==> '.' !in r[i]
    decreases |s|
  {
    var i := IndexOf(s, '.');
    if i == |s| then [s] else [s[..i]] + Split(s[i + 1..])
  }

  /** `p.join(".")`. */
  function Join(p: seq<string>): string
  {
    if p == [] then "" else if |p| == 1 then p[0] else p[0] + "." + Join(p[1..])
  }

  /** `s.startsWith(prefix)`. */
  predicate StartsWith(s: string, prefix: string)
  {
    |prefix| <= |s| && s[..|prefix|] == prefix
  }

  /** A segment of a key path: non-empty and free of dots. */
  predicate ValidKey(k: string)
  {
    k != "" && '.' !in k
  }

  /** A key path given by its segments: at least one, each a valid key. */
  predicate ValidPath(p: seq<string>)
  {
    p != [] && forall i :: 0 <= i < |p| ==> ValidKey(p[i])
  }

  lemma JoinCons(k: string, p: seq<string>)
    requires p != []
    ensures Join([k] + p) == k + "." + Join(p)
  {
    assert ([k] + p)[1..] == p;
  }

  /** Splitting undoes joining: `s.split(".").join(".") == s` for every string. */
  lemma {:induction false} JoinSplit(s: string)
    ensures Join(Split(s)) == s
    decreases |s|
  {
    var i := IndexOf(s, '.');
    if i < |s| {
      var head, rest := s[..i], s[i + 1..];
      SplitDot(s);
      JoinSplit(rest);
      JoinCons(head, Split(rest));
      DotAround(s, i);
    } else {
      assert Split(s) == [s];
    }
  }

  /** Splitting at the first dot. */
  lemma SplitDot(s: string)
    requires IndexOf(s, '.') < |s|
    ensures Split(s) == [s[..IndexOf(s, '.')]] + Split(s[IndexOf(s, '.') + 1..])
  {
  }

  /** A string with a dot at `i` is the text before it, the dot, and the text after it. */
  lemma DotAround(s: string, i: nat)
    requires i < |s| && s[i] == '.'
    ensures s == s[..i] + "." + s[i + 1..]
  {
    assert s == s[..i] + [s[i]] + s[i + 1..];
  }

  /** Splitting `k + "." + rest` with a dot-free `k` gives `k` followed by the pieces of `rest`. */
  lemma SplitCons(k: string, rest: string)
    requires '.' !in k
    ensures Split(k + "." + rest) == [k] + Split(rest)
  {
    var s := k + "." + rest;
    assert s[|k|] == '.';
    assert s[..|k|] == k;
    assert IndexOf(s, '.') == |k|;
    assert s[|k| + 1..] == rest;
  }

  /** Joining undoes splitting for dot-free segments: the key-path codec is a bijection. */
  lemma {:induction false} SplitJoin(p: seq<string>)
    requires p != []
    requires forall i :: 0 <= i < |p| ==> '.' !in p[i]
    ensures Split(Join(p)) == p
  {
    if |p| > 1 {
      SplitJoin(p[1..]);
      JoinCons(p[0], p[1..]);
      SplitCons(p[0], Join(p[1..]));
      assert p == [p[0]] + p[1..];
    } else {
      assert Join(p) == p[0];
      assert IndexOf(p[0], '.') == |p[0]|;
    }
  }

  /** The first piece of a dotted string and the re-joined rest: `keys[0]` and `keys.splice(1).join(".")`. */
  lemma SplitFirst(s: string)
    requires '.' in s
    ensures |Split(s)| >= 2
    ensures Split(s)[0] == s[..IndexOf(s, '.')]
    ensures Join(Split(s)[1..]) == s[IndexOf(s, '.') + 1..]
  {
    var i := IndexOf(s, '.');
    var rest := s[i + 1..];
    assert Split(s) == [s[..i]] + Split(rest);
    assert Split(s)[1..] == Split(rest);
    JoinSplit(rest);
  }

  lemma JoinDotFree(p: seq<string>)
    requires |p| == 1 && '.' !in p[0]
    ensures '.' !in Join(p)
  {
  }

  /** A path of two or more segments joins to a string containing a dot. */
  lemma JoinHasDot(p: seq<string>)
    requires |p| >= 2
    ensures '.' in Join(p)
  {
    JoinCons(p[0], p[1..]);
    assert p == [p[0]] + p[1..];
    assert Join(p)[|p[0]|] == '.';
  }

  /** Joining with the last segment split off. */
  lemma {:induction false} JoinSnoc(p: seq<string>)
    requires |p| >= 2
    ensures Join(p) == Join(p[..|p| - 1]) + "." + p[|p| - 1]
  {
    if |p| > 2 {
      JoinSnoc(p[1..]);
      assert p[1..][..|p[1..]| - 1] == p[..|p| - 1][1..];
      JoinCons(p[0], p[1..]);
      JoinCons(p[0], p[..|p| - 1][1..]);
      assert p[..|p| - 1] == [p[0]] + p[..|p| - 1][1..];
      assert p == [p[0]] + p[1..];
    }
  }

  /** The last occurrence of `c` is at `k` when `s[k]` is `c` and no later character is. */
  lemma LastIndexOfIs(s: string, c: char, k: nat)
    requires k < |s| && s[k] == c
    requires forall m :: k < m < |s| ==> s[m] != c
    ensures LastIndexOf(s, c) == k
  {
    var j := LastIndexOf(s, c);
    assert 0 <= j by { assert s[k] in s; }
    forall m | j < m < |s| ensures s[m] != c {
      assert s[m] == s[j + 1..][m - j - 1];
    }
  }

  /** The characters of `init + "." + last` from the added dot on. */
  lemma DotThenLast(init: string, last: string)
    requires '.' !in last
    ensures (init + "." + last)[|init|] == '.'
    ensures forall m :: |init| < m < |init + "." + last| ==> (init + "." + last)[m] != '.'
    ensures (init + "." + last)[|init|..] == "." + last
  {
    var s := init + "." + last;
    forall m | |init| < m < |s| ensures s[m] != '.' {
      assert s[m] == last[m - |init| - 1];
    }
  }

  /** In `init + "." + last` with a dot-free `last`, the last dot is the one added. */
  lemma LastDot(init: string, last: string)
    requires '.' !in last
    ensures LastIndexOf(init + "." + last, '.') == |init|
    ensures (init + "." + last)[|init|..] == "." + last
  {
    DotThenLast(init, last);
    LastIndexOfIs(init + "." + last, '.', |init|);
  }

  /**
   * `key.substring(key.lastIndexOf("."))` on a dotted path is "." followed by
   * its last segment: the dot is kept.
   */
  lemma LastSegmentMarker(p: seq<string>)
    requires |p| >= 2
    requires forall i :: 0 <= i < |p| ==> '.' !in p[i]
    ensures 0 <= LastIndexOf(Join(p), '.')
    ensures Join(p)[LastIndexOf(Join(p), '.')..] == "." + p[|p| - 1]
  {
    JoinSnoc(p);
    LastDot(Join(p[..|p| - 1]), p[|p| - 1]);
  }

  // ----- the default sort order of Array.prototype.sort on strings -----

  /** Lexicographic order on character codes. */
  predicate LessEq(a: string, b: string)
  {
    a == [] || (b != [] && (a[0] < b[0] || (a[0] == b[0] && LessEq(a[1..], b[1..]))))
  }

  predicate Less(a: string, b: string)
  {
    LessEq(a, b) && a != b
  }

  lemma {:induction false} LessEqTotal(a: string, b: string)
    ensures LessEq(a, b) || LessEq(b, a)
  {
    if a != [] && b != [] && a[0] == b[0] {
      LessEqTotal(a[1..], b[1..]);
    }
  }

  lemma {:induction false} LessEqAntisymmetric(a: string, b: string)
    requires LessEq(a, b) && LessEq(b, a)
    ensures a == b
  {
    if a != [] && b != [] {
      LessEqAntisymmetric(a[1..], b[1..]);
      assert a == [a[0]] + a[1..] && b == [b[0]] + b[1..];
    }
  }

  lemma {:induction false} LessEqTransitive(a: string, b: string, c: string)
    requires LessEq(a, b) && LessEq(b, c)
    ensures LessEq(a, c)
  {
    if a != [] && b != [] && c != [] && a[0] == b[0] && b[0] == c[0] {
      LessEqTransitive(a[1..], b[1..], c[1..]);
    }
  }

  lemma LessTransitive(a: string, b: string, c: string)
    requires Less(a, b) && LessEq(b, c)
    ensures Less(a, c)
  {
    LessEqTransitive(a, b, c);
    if a == c {
      LessEqAntisymmetric(a, b);
    }
  }

  predicate Sorted(s: seq<string>)
  {
    forall i, j :: 0 <= i < j < |s| ==> LessEq(s[i], s[j])
  }

  predicate StrictlySorted(s: seq<string>)
  {
    forall i, j :: 0 <= i < j < |s| ==> Less(s[i], s[j])
  }

  predicate Distinct(s: seq<string>)
  {
    forall i, j :: 0 <= i < j < |s| ==> s[i] != s[j]
  }

  function Insert(x: string, s: seq<string>): (r: seq<string>)
    requires Sorted(s)
    ensures multiset(r) == multiset(s) + multiset{x}
    ensures Sorted(r)
  {
    if s == [] then [x]
    else if LessEq(x, s[0]) then
      BelowFirst(x, s);
      ConsSorted(x, s);
      [x] + s
    else
      LessEqTotal(x, s[0]);
      SortedTail(s);
      var t := Insert(x, s[1..]);
      BelowAll(s[0], s[1..], t, x);
      ConsSorted(s[0], t);
      ConsMultiset(s, t, x);
      [s[0]] + t
  }

  /** Below the first element of a sorted sequence is below all of it. */
  lemma BelowFirst(x: string, s: seq<string>)
    requires Sorted(s) && s != [] && LessEq(x, s[0])
    ensures forall j :: 0 <= j < |s| ==> LessEq(x, s[j])
  {
    forall j | 0 < j < |s| ensures LessEq(x, s[j]) {
      LessEqTransitive(x, s[0], s[j]);
    }
  }

  /** An element below every element of a sorted sequence can go in front. */
  lemma ConsSorted(h: string, t: seq<string>)
    requires Sorted(t) && forall j :: 0 <= j < |t| ==> LessEq(h, t[j])
    ensures Sorted([h] + t)
  {
    forall i, j | 0 <= i < j < |[h] + t| ensures LessEq(([h] + t)[i], ([h] + t)[j]) {
      assert ([h] + t)[j] == t[j - 1];
      if i > 0 {
        assert ([h] + t)[i] == t[i - 1];
      }
    }
  }

  /** The tail of a sorted sequence is sorted and lies above its head. */
  lemma SortedTail(s: seq<string>)
    requires Sorted(s) && s != []
    ensures Sorted(s[1..]) && forall j :: 0 <= j < |s[1..]| ==> LessEq(s[0], s[1..][j])
  {
  }

  /** A lower bound of `s` and of `x` bounds any permutation of `s` with `x` added. */
  lemma BelowAll(a: string, s: seq<string>, t: seq<string>, x: string)
    requires LessEq(a, x) && forall j :: 0 <= j < |s| ==> LessEq(a, s[j])
    requires multiset(t) == multiset(s) + multiset{x}
    ensures forall j :: 0 <= j < |t| ==> LessEq(a, t[j])
  {
    forall j | 0 <= j < |t| ensures LessEq(a, t[j]) {
      assert t[j] in multiset(t);
      if t[j] != x {
        assert t[j] in s;
        var m :| 0 <= m < |s| && s[m] == t[j];
      }
    }
  }

  lemma ConsMultiset(s: seq<string>, t: seq<string>, x: string)
    requires s != [] && multiset(t) == multiset(s[1..]) + multiset{x}
    ensures multiset([s[0]] + t) == multiset(s) + multiset{x}
  {
    assert s == [s[0]] + s[1..];
  }

  /**
   * `keys.sort()` with the default comparison: a sorted permutation of the
   * input (insertion sort; the algorithm the engine uses is not observable).
   */
  function SortStrings(s: seq<string>): (r: seq<string>)
    ensures multiset(r) == multiset(s)
    ensures Sorted(r)
  {
    if s == [] then []
    else
      assert s == [s[0]] + s[1..];
      Insert(s[0], SortStrings(s[1..]))
  }

  lemma SortedDistinctIsStrict(s: seq<string>)
    requires Sorted(s) && Distinct(s)
    ensures StrictlySorted(s)
  {
  }

  /** Sorting an already sorted sequence changes nothing. */
  lemma {:induction false} SortSortedIdentity(s: seq<string>)
    requires Sorted(s)
    ensures SortStrings(s) == s
  {
    if s != [] {
      SortSortedIdentity(s[1..]);
      assert SortStrings(s) == Insert(s[0], s[1..]);
    }
  }

  lemma DistinctMultiset(s: seq<string>, t: seq<string>)
    requires multiset(s) == multiset(t) && Distinct(s)
    ensures Distinct(t)
  {
    forall i, j | 0 <= i < j < |t| ensures t[i] != t[j] {
      assert t == t[..i] + [t[i]] + t[i + 1..j] + [t[j]] + t[j + 1..];
      assert multiset(t)[t[i]] >= 1 + (if t[j] == t[i] then 1 else 0);
      assert t[i] in multiset(s);
      var k :| 0 <= k < |s| && s[k] == t[i];
      DistinctCount(s, k);
    }
  }

  lemma {:induction false} DistinctCount(s: seq<string>, k: nat)
    requires Distinct(s) && k < |s|
    ensures multiset(s)[s[k]] == 1
  {
    if k == 0 {
      assert s == [s[0]] + s[1..];
      assert s[0] !in s[1..];
    } else {
      assert s == [s[0]] + s[1..];
      DistinctCount(s[1..], k - 1);
    }
  }
}
