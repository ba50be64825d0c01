/**
 * The key-path codec of i18n-generate.js: flattening a translation tree into
 * dotted leaf paths (`getObjectNestedProperties`), looking a dotted path up
 * (`findInnerValue`), inserting at a dotted path (`buildObject`) and building
 * a fresh tree from a set of paths (`getObjectFromTranslations`).
 */
module KeyPath {
  import opened JsString
  import opened JsValue

  // ----- getObjectNestedProperties -----

  /** Every string of `qs` prefixed with `k` and a dot. */
  function Prefixed(k: string, qs: seq<string>): (r: seq<string>)
    ensures |r| == |qs|
    ensures forall j :: 0 <= j < |qs| ==> r[j] == k + "." + qs[j]
  {
    seq(|qs|, j requires 0 <= j < |qs| => k + "." + qs[j])
  }

  /**
   * `getObjectNestedProperties(obj)`: the dotted path of every non-object
   * value, keys visited in sorted order at each level, depth first.
   */
  function Flatten(ps: seq<Prop>): seq<string>
    decreases ps, 1
  {
    FlattenKeys(ps, SortStrings(Keys(ps)))
  }

  /** The part of `Flatten(ps)` contributed by the keys `ks`, in that order. */
  function FlattenKeys(ps: seq<Prop>, ks: seq<string>): seq<string>
    decreases ps, 0, |ks|
  {
    if ks == [] then [] else Section(ps, ks[0]) + FlattenKeys(ps, ks[1..])
  }

  /** The paths one key contributes: its nested paths behind `k + "."` for an object, `k` itself otherwise. */
  function Section(ps: seq<Prop>, k: string): seq<string>
    decreases ps, 0, 0
  {
    var i := KeyIndex(ps, k);
    if i < |ps| && ps[i].val.Obj? then Prefixed(k, Flatten(ps[i].val.props)) else [k]
  }

  /** The inner loop of `getObjectNestedProperties`: `innerKeys[index] = key + "." + innerKeys[index]` for every index. */
  method PrefixEach(key: string, innerKeys: seq<string>) returns (r: seq<string>)
    ensures r == Prefixed(key, innerKeys)
  {
    r := innerKeys;
    var index := 0;
    while index < |r|
      invariant 0 <= index <= |r| == |innerKeys|
      invariant forall m :: 0 <= m < index ==> r[m] == key + "." + innerKeys[m]
      invariant forall m :: index <= m < |r| ==> r[m] == innerKeys[m]
    {
      r := r[index := key + "." + r[index]];
      index := index + 1;
    }
  }

  lemma AppendAssoc(a: seq<string>, b: seq<string>, c: seq<string>)
    ensures (a + b) + c == a + (b + c)
  {
  }

  /** The keys from the `n`th on contribute the `n`th key's section, then the rest. */
  lemma FlattenNext(ps: seq<Prop>, keys: seq<string>, n: nat)
    requires n < |keys|
    ensures FlattenKeys(ps, keys[n..]) == Section(ps, keys[n]) + FlattenKeys(ps, keys[n + 1..])
  {
    assert keys[n..][0] == keys[n] && keys[n..][1..] == keys[n + 1..];
  }

  /** The imperative original: a loop over the sorted keys that pushes paths and rewrites the inner ones in place. */
  method GetObjectNestedProperties(obj: seq<Prop>) returns (props: seq<string>)
    ensures props == Flatten(obj)
    decreases obj, 1
  {
    props := [];
    var keys := SortStrings(Keys(obj));
    var n := 0;
    while n < |keys|
      invariant 0 <= n <= |keys|
      invariant props + FlattenKeys(obj, keys[n..]) == Flatten(obj)
    {
      var key := keys[n];
      FlattenNext(obj, keys, n);
      AppendAssoc(props, Section(obj, key), FlattenKeys(obj, keys[n + 1..]));
      var section := KeySection(obj, key);
      props := props + section;
      n := n + 1;
    }
  }

  /** The body of the loop for one key: the nested paths, rewritten behind the key, or the key itself. */
  method KeySection(obj: seq<Prop>, key: string) returns (section: seq<string>)
    ensures section == Section(obj, key)
    decreases obj, 0
  {
    var i := KeyIndex(obj, key);
    if i < |obj| && obj[i].val.Obj? {
      var innerKeys := GetObjectNestedProperties(obj[i].val.props);
      section := PrefixEach(key, innerKeys);
    } else {
      section := [key];
    }
  }

  /** Every flattened path names a string leaf of the tree, through valid segments. */
  lemma {:induction false} FlattenSound(ps: seq<Prop>, x: string)
    requires JsonTree(Obj(ps)) && x in Flatten(ps)
    ensures ValidPath(Split(x)) && At(Obj(ps), Split(x)).Str?
    decreases ps, 1
  {
    forall k | k in SortStrings(Keys(ps)) ensures k in Keys(ps) {
      assert k in multiset(SortStrings(Keys(ps)));
    }
    FlattenKeysSound(ps, SortStrings(Keys(ps)), x);
  }

  lemma {:induction false} FlattenKeysSound(ps: seq<Prop>, ks: seq<string>, x: string)
    requires JsonTree(Obj(ps)) && (forall k :: k in ks ==> k in Keys(ps)) && x in FlattenKeys(ps, ks)
    ensures ValidPath(Split(x)) && At(Obj(ps), Split(x)).Str?
    decreases ps, 0, |ks|
  {
    if x in Section(ps, ks[0]) {
      SectionSound(ps, ks[0], x);
    } else {
      FlattenKeysSound(ps, ks[1..], x);
    }
  }

  lemma {:induction false} SectionSound(ps: seq<Prop>, k: string, x: string)
    requires JsonTree(Obj(ps)) && k in Keys(ps) && x in Section(ps, k)
    ensures ValidPath(Split(x)) && At(Obj(ps), Split(x)).Str?
    decreases ps, 0, 0
  {
    KeyIndexIn(ps, k);
    var i := KeyIndex(ps, k);
    var child := ps[i].val;
    assert ValidKey(k) && JsonTree(child);
    if child.Obj? {
      var ys := Flatten(child.props);
      var j :| 0 <= j < |ys| && x == k + "." + ys[j];
      FlattenSound(child.props, ys[j]);
      SplitCons(k, ys[j]);
      AtCons(Obj(ps), k, Split(ys[j]));
    } else {
      assert x == k;
      assert IndexOf(k, '.') == |k|;
      AtCons(Obj(ps), k, []);
    }
  }

  /** Every string leaf of the tree is flattened. */
  lemma {:induction false} FlattenComplete(ps: seq<Prop>, p: seq<string>)
    requires JsonTree(Obj(ps)) && At(Obj(ps), p).Str?
    ensures p != [] && Join(p) in Flatten(ps)
    decreases ps, 1
  {
    var k := p[0];
    assert p == [k] + p[1..];
    AtCons(Obj(ps), k, p[1..]);
    AtUndefined(p[1..]);
    assert Get(Obj(ps), k) != Undefined;
    var i := KeyIndex(ps, k);
    KeyIndexIn(ps, k);
    var child := ps[i].val;
    assert ValidKey(k) && JsonTree(child);
    if child.Obj? {
      assert p[1..] != [];
      FlattenComplete(child.props, p[1..]);
      var ys := Flatten(child.props);
      var j :| 0 <= j < |ys| && ys[j] == Join(p[1..]);
      JoinCons(k, p[1..]);
      assert Section(ps, k)[j] == Join(p);
    } else {
      assert p[1..] == [];
      assert Join(p) == k;
      assert Section(ps, k) == [k];
    }
    assert k in multiset(SortStrings(Keys(ps)));
    SectionInFlattenKeys(ps, SortStrings(Keys(ps)), k, Join(p));
  }

  lemma {:induction false} SectionInFlattenKeys(ps: seq<Prop>, ks: seq<string>, k: string, x: string)
    requires k in ks && x in Section(ps, k)
    ensures x in FlattenKeys(ps, ks)
    decreases |ks|
  {
    if ks[0] != k {
      SectionInFlattenKeys(ps, ks[1..], k, x);
    }
  }

  /** Paths compared segment by segment, each segment in string order. */
  predicate PathLess(a: seq<string>, b: seq<string>)
    decreases |a|
  {
    a != [] && b != [] && (Less(a[0], b[0]) || (a[0] == b[0] && PathLess(a[1..], b[1..])))
  }

  predicate PathsSorted(xs: seq<string>)
  {
    forall i, j :: 0 <= i < j < |xs| ==> PathLess(Split(xs[i]), Split(xs[j]))
  }

  /**
   * The flattened paths come out strictly ordered segment by segment: sorted
   * keys at every level, depth first. In particular no path is listed twice.
   */
  lemma {:induction false} FlattenSorted(ps: seq<Prop>)
    requires JsonTree(Obj(ps))
    ensures PathsSorted(Flatten(ps))
    decreases ps, 1
  {
    var ks := SortStrings(Keys(ps));
    assert Distinct(Keys(ps));
    DistinctMultiset(Keys(ps), ks);
    SortedDistinctIsStrict(ks);
    forall k | k in ks ensures k in Keys(ps) {
      assert k in multiset(ks);
    }
    FlattenKeysSorted(ps, ks);
  }

  lemma {:induction false} FlattenKeysSorted(ps: seq<Prop>, ks: seq<string>)
    requires JsonTree(Obj(ps)) && StrictlySorted(ks) && (forall k :: k in ks ==> k in Keys(ps))
    ensures PathsSorted(FlattenKeys(ps, ks))
    ensures forall x :: x in FlattenKeys(ps, ks) ==> Split(x)[0] in ks
    decreases ps, 0, |ks|
  {
    if ks != [] {
      var a := Section(ps, ks[0]);
      var b := FlattenKeys(ps, ks[1..]);
      assert StrictlySorted(ks[1..]);
      FlattenKeysSorted(ps, ks[1..]);
      SectionSorted(ps, ks[0]);
      forall x | x in a ensures Split(x)[0] == ks[0] {
        SectionHead(ps, ks[0], x);
      }
      forall i, j | 0 <= i < |a| && 0 <= j < |b| ensures PathLess(Split(a[i]), Split(b[j])) {
        assert a[i] in a && b[j] in b;
        var h :| 0 < h < |ks| && ks[h] == Split(b[j])[0];
        assert Less(ks[0], ks[h]);
      }
      PathsSortedAppend(a, b);
    }
  }

  lemma SectionHead(ps: seq<Prop>, k: string, x: string)
    requires JsonTree(Obj(ps)) && k in Keys(ps) && x in Section(ps, k)
    ensures Split(x)[0] == k
  {
    KeyIndexIn(ps, k);
    var i := KeyIndex(ps, k);
    assert ValidKey(k);
    if ps[i].val.Obj? {
      var ys := Flatten(ps[i].val.props);
      var j :| 0 <= j < |ys| && x == k + "." + ys[j];
      SplitCons(k, ys[j]);
    } else {
      assert IndexOf(k, '.') == |k|;
    }
  }

  lemma {:induction false} SectionSorted(ps: seq<Prop>, k: string)
    requires JsonTree(Obj(ps)) && k in Keys(ps)
    ensures PathsSorted(Section(ps, k))
    decreases ps, 0, 0
  {
    KeyIndexIn(ps, k);
    var i := KeyIndex(ps, k);
    assert ValidKey(k) && JsonTree(ps[i].val);
    if ps[i].val.Obj? {
      var ys := Flatten(ps[i].val.props);
      FlattenSorted(ps[i].val.props);
      forall m, n | 0 <= m < n < |ys| ensures PathLess(Split(k + "." + ys[m]), Split(k + "." + ys[n])) {
        SplitCons(k, ys[m]);
        SplitCons(k, ys[n]);
        assert ([k] + Split(ys[m]))[1..] == Split(ys[m]);
        assert ([k] + Split(ys[n]))[1..] == Split(ys[n]);
      }
    }
  }

  lemma PathsSortedAppend(a: seq<string>, b: seq<string>)
    requires PathsSorted(a) && PathsSorted(b)
    requires forall i, j :: 0 <= i < |a| && 0 <= j < |b| ==> PathLess(Split(a[i]), Split(b[j]))
    ensures PathsSorted(a + b)
  {
    forall i, j | 0 <= i < j < |a + b| ensures PathLess(Split((a + b)[i]), Split((a + b)[j])) {
      if j < |a| {
      } else if i < |a| {
        assert (a + b)[j] == b[j - |a|];
      } else {
        assert (a + b)[i] == b[i - |a|] && (a + b)[j] == b[j - |a|];
      }
    }
  }

  /**
   * An empty object contributes no path: `{}` branches vanish from the
   * flattening, at the top level and at every depth below it.
   */
  lemma FlattenSkipsEmpty(ps: seq<Prop>, x: string)
    requires JsonTree(Obj(ps)) && x in Flatten(ps)
    ensures Get(Obj(ps), Split(x)[0]) != Obj([])
    ensures forall q :: q < Split(x) ==> At(Obj(ps), q) != Obj([])
  {
    FlattenSound(ps, x);
    var p := Split(x);
    assert p == [p[0]] + p[1..];
    AtCons(Obj(ps), p[0], p[1..]);
    if p[1..] != [] {
      assert p[1..] == [p[1..][0]] + p[1..][1..];
      AtCons(Obj([]), p[1..][0], p[1..][1..]);
      AtUndefined(p[1..][1..]);
    }
    forall q | q < p ensures At(Obj(ps), q) != Obj([]) {
      NoEmptyAbove(Obj(ps), q, p);
    }
  }

  /** Above a string there is no empty object. */
  lemma NoEmptyAbove(v: Value, q: seq<string>, p: seq<string>)
    requires q < p && At(v, p).Str?
    ensures At(v, q) != Obj([])
  {
    var rest := p[|q|..];
    assert p == q + rest;
    AtAppend(v, q, rest);
    assert rest == [rest[0]] + rest[1..];
    AtCons(Obj([]), rest[0], rest[1..]);
    AtUndefined(rest[1..]);
  }

  // ----- findInnerValue -----

  /**
   * `findInnerValue(obj, key)`: descend one segment at a time while the
   * intermediate value is truthy; `undefined` as soon as it is not.
   */
  function FindInnerValue(obj: Value, key: string): Value
    decreases |key|
  {
    if '.' in key then
      var keys := Split(key);
      SplitFirst(key);
      var head := Get(obj, keys[0]);
      if Truthy(head) then FindInnerValue(head, Join(keys[1..])) else Undefined
    else
      Get(obj, key)
  }

  predicate DotFree(p: seq<string>)
  {
    forall i :: 0 <= i < |p| ==> '.' !in p[i]
  }

  /**
   * Looking up a joined path is walking its segments: the truthiness test of
   * the source never changes the answer, and a missing path is `undefined`.
   */
  lemma {:induction false} FindInnerValueAt(v: Value, p: seq<string>)
    requires p != [] && DotFree(p)
    ensures FindInnerValue(v, Join(p)) == At(v, p)
  {
    if |p| == 1 {
      assert Join(p) == p[0];
    } else {
      JoinCons(p[0], p[1..]);
      assert p == [p[0]] + p[1..];
      JoinHasDot(p);
      SplitJoin(p);
      var head := Get(v, p[0]);
      if Truthy(head) {
        FindInnerValueAt(head, p[1..]);
      } else {
        AtUndefined(p[1..]);
        assert At(v, p) == At(head, p[1..]);
      }
    }
  }

  // ----- buildObject -----

  /** `obj[k] = x`; on a string it is silently ignored (the script is not in strict mode). */
  function SetProp(obj: Value, k: string, x: Value): (r: Value)
    ensures obj.Obj? ==> r.Obj? && Get(r, k) == x
    ensures obj.Obj? ==> forall j :: j != k ==> Get(r, j) == Get(obj, j)
    ensures !obj.Obj? ==> r == obj
  {
    if obj.Obj? then
      GetPut(obj.props, k, x, k);
      PutFrame(obj.props, k, x);
      Obj(Put(obj.props, k, x))
    else obj
  }

  /**
   * `buildObject(obj, key, value)`: set `value` at the dotted `key`, replacing a
   * missing or falsy intermediate by a fresh `{}`. The object keeps its keys in
   * order; at most the first segment is appended.
   */
  function BuildObject(obj: Value, key: string, value: Value): (r: Value)
    ensures obj.Obj? ==> r.Obj? && (Keys(r.props) == Keys(obj.props) || Keys(r.props) == Keys(obj.props) + [Split(key)[0]])
    ensures !obj.Obj? ==> r == obj
    decreases |key|
  {
    if '.' in key then
      var keys := Split(key);
      SplitFirst(key);
      var current := Get(obj, keys[0]);
      var r := SetProp(obj, keys[0], BuildObject(if Truthy(current) then current else Obj([]), Join(keys[1..]), value));
      if obj.Obj? then KeysPut(obj.props, keys[0], BuildObject(if Truthy(current) then current else Obj([]), Join(keys[1..]), value)); r else r
    else
      if obj.Obj? then
        assert Split(key) == [key];
        KeysPut(obj.props, key, value);
        SetProp(obj, key, value)
      else SetProp(obj, key, value)
  }

  /** `buildObject` over the segments of the key. */
  function BuildAt(obj: Value, p: seq<string>, value: Value): Value
    requires p != []
    decreases |p|
  {
    if |p| == 1 then SetProp(obj, p[0], value)
    else
      var current := Get(obj, p[0]);
      SetProp(obj, p[0], BuildAt(if Truthy(current) then current else Obj([]), p[1..], value))
  }

  lemma {:induction false} BuildObjectAt(obj: Value, p: seq<string>, value: Value)
    requires p != [] && DotFree(p)
    ensures BuildObject(obj, Join(p), value) == BuildAt(obj, p, value)
    decreases |p|
  {
    if |p| == 1 {
      assert Join(p) == p[0];
    } else {
      JoinCons(p[0], p[1..]);
      assert p == [p[0]] + p[1..];
      JoinHasDot(p);
      SplitJoin(p);
      var current := Get(obj, p[0]);
      BuildObjectAt(if Truthy(current) then current else Obj([]), p[1..], value);
    }
  }

  /** No non-empty string stands on the way to `p`; the root is an object. */
  predicate ClearPath(obj: Value, p: seq<string>)
    decreases |p|
  {
    obj.Obj? && (|p| <= 1 || (var c := Get(obj, p[0]); if c.Obj? then ClearPath(c, p[1..]) else !Truthy(c)))
  }

  lemma {:induction false} ClearPathEmpty(p: seq<string>)
    ensures ClearPath(Obj([]), p)
  {
  }

  /** Insert, then look up: the value comes back. */
  lemma {:induction false} BuildAtFind(obj: Value, p: seq<string>, value: Value)
    requires p != [] && ClearPath(obj, p)
    ensures At(BuildAt(obj, p, value), p) == value
    decreases |p|
  {
    var r := BuildAt(obj, p, value);
    if |p| == 1 {
      AtCons(r, p[0], []);
      assert p == [p[0]];
    } else {
      var current := Get(obj, p[0]);
      var child := if Truthy(current) then current else Obj([]);
      if !Truthy(current) {
        ClearPathEmpty(p[1..]);
      }
      BuildAtFind(child, p[1..], value);
      AtCons(r, p[0], p[1..]);
      assert p == [p[0]] + p[1..];
    }
  }

  /** The round trip of `buildObject` and `findInnerValue` on dotted keys. */
  lemma BuildObjectFind(obj: Value, p: seq<string>, value: Value)
    requires ValidPath(p) && ClearPath(obj, p)
    ensures FindInnerValue(BuildObject(obj, Join(p), value), Join(p)) == value
  {
    BuildObjectAt(obj, p, value);
    BuildAtFind(obj, p, value);
    FindInnerValueAt(BuildAt(obj, p, value), p);
  }

  /** Neither path is a prefix of the other. */
  predicate Diverge(p: seq<string>, q: seq<string>)
  {
    !(p <= q) && !(q <= p)
  }

  lemma DivergeTail(p: seq<string>, q: seq<string>)
    requires Diverge(p, q) && p[0] == q[0]
    ensures |p| >= 2 && |q| >= 2 && Diverge(p[1..], q[1..])
  {
    assert p == [p[0]] + p[1..] && q == [q[0]] + q[1..];
    assert p[1..] <= q[1..] ==> p <= q;
    assert q[1..] <= p[1..] ==> q <= p;
  }

  /** Insertion leaves every path that diverges from the inserted one as it was. */
  lemma {:induction false} BuildAtFrame(obj: Value, p: seq<string>, value: Value, q: seq<string>)
    requires p != [] && Diverge(p, q)
    ensures At(BuildAt(obj, p, value), q) == At(obj, q)
    decreases |p|
  {
    var r := BuildAt(obj, p, value);
    assert q != [];
    assert q == [q[0]] + q[1..];
    AtCons(r, q[0], q[1..]);
    AtCons(obj, q[0], q[1..]);
    if obj.Obj? {
      if |p| == 1 {
        GetPut(obj.props, p[0], value, q[0]);
        assert q[0] != p[0];
      } else {
        var current := Get(obj, p[0]);
        var child := if Truthy(current) then current else Obj([]);
        GetPut(obj.props, p[0], BuildAt(child, p[1..], value), q[0]);
        if q[0] == p[0] {
          DivergeTail(p, q);
          BuildAtFrame(child, p[1..], value, q[1..]);
          if !Truthy(current) {
            AtUndefined(q[1..][1..]);
            assert At(current, q[1..]) == Undefined;
          }
        }
      }
    }
  }

  /** After insertion every proper prefix of the inserted path holds an object. */
  lemma {:induction false} BuildAtPrefix(obj: Value, p: seq<string>, value: Value, q: seq<string>)
    requires p != [] && ClearPath(obj, p) && q < p
    ensures At(BuildAt(obj, p, value), q).Obj?
    decreases |p|
  {
    var r := BuildAt(obj, p, value);
    if q != [] {
      assert q[0] == p[0];
      var current := Get(obj, p[0]);
      var child := if Truthy(current) then current else Obj([]);
      if !Truthy(current) {
        ClearPathEmpty(p[1..]);
      }
      assert q[1..] < p[1..];
      BuildAtPrefix(child, p[1..], value, q[1..]);
      assert q == [q[0]] + q[1..];
      AtCons(r, q[0], q[1..]);
    }
  }

  /** Inserting a string keeps a tree a tree, and keeps it free of empty objects. */
  lemma {:induction false} BuildAtJson(obj: Value, p: seq<string>, value: Value)
    requires JsonTree(obj) && obj.Obj? && ValidPath(p) && value.Str?
    ensures JsonTree(BuildAt(obj, p, value)) && BuildAt(obj, p, value).Obj?
    ensures Tidy(obj) ==> Tidy(BuildAt(obj, p, value))
    decreases |p|
  {
    var ps := obj.props;
    if |p| == 1 {
      PutJson(ps, p[0], value);
    } else {
      var current := Get(obj, p[0]);
      var child := if Truthy(current) then current else Obj([]);
      JsonTreeGet(obj, p[0]);
      if child.Obj? {
        assert ValidPath(p[1..]) by { assert forall m :: 0 <= m < |p| - 1 ==> p[1..][m] == p[m + 1]; }
        BuildAtJson(child, p[1..], value);
        var built := BuildAt(child, p[1..], value);
        assert built != Obj([]) by {
          assert built == SetProp(child, p[1..][0], if |p[1..]| == 1 then value else BuildAt(if Truthy(Get(child, p[1..][0])) then Get(child, p[1..][0]) else Obj([]), p[1..][1..], value));
        }
        PutJson(ps, p[0], built);
      } else {
        PutJson(ps, p[0], child);
      }
    }
  }

  /** Every proper prefix of `p` holds an object: `p` can be assigned without creating anything. */
  ghost predicate Branches(obj: Value, p: seq<string>)
  {
    forall q :: q < p ==> At(obj, q).Obj?
  }

  /** Below the first segment, the rest of the path still runs through objects. */
  lemma BranchesTail(obj: Value, p: seq<string>)
    requires |p| > 1 && Branches(obj, p)
    ensures obj.Obj? && Get(obj, p[0]).Obj? && Branches(Get(obj, p[0]), p[1..])
  {
    var c := Get(obj, p[0]);
    assert [] < p && At(obj, []) == obj;
    assert [p[0]] < p;
    AtCons(obj, p[0], []);
    assert [p[0]] + [] == [p[0]];
    assert At(c, []) == c;
    forall q | q < p[1..] ensures At(c, q).Obj? {
      assert [p[0]] + q < p by {
        assert p == [p[0]] + p[1..];
        assert [p[0]] + q == p[..|q| + 1];
      }
      AtCons(obj, p[0], q);
    }
  }

  lemma {:induction false} BranchesClear(obj: Value, p: seq<string>)
    requires p != [] && Branches(obj, p)
    ensures ClearPath(obj, p)
    decreases |p|
  {
    assert [] < p && At(obj, []) == obj;
    if |p| > 1 {
      BranchesTail(obj, p);
      BranchesClear(Get(obj, p[0]), p[1..]);
    }
  }

  /** With no string above it, a path can be built: every step is an object or missing. */
  lemma {:induction false} NoLeafAbove(obj: Value, p: seq<string>)
    requires obj.Obj? && p != [] && forall q :: q < p ==> !At(obj, q).Str?
    ensures ClearPath(obj, p)
    decreases |p|
  {
    if |p| > 1 {
      var c := Get(obj, p[0]);
      assert [p[0]] < p;
      AtCons(obj, p[0], []);
      assert [p[0]] + [] == [p[0]];
      assert At(c, []) == c;
      if c.Obj? {
        forall q | q < p[1..] ensures !At(c, q).Str? {
          assert [p[0]] + q < p by {
            assert p == [p[0]] + p[1..];
            assert [p[0]] + q == p[..|q| + 1];
          }
          AtCons(obj, p[0], q);
        }
        NoLeafAbove(c, p[1..]);
      }
    }
  }

  /**
   * What an insertion does at every path: the value at `p`, objects above it,
   * nothing below it, and every diverging path as it was.
   */
  lemma BuildAtShape(obj: Value, p: seq<string>, value: Value)
    requires p != [] && ClearPath(obj, p) && !value.Obj?
    ensures At(BuildAt(obj, p, value), p) == value
    ensures forall r :: r < p ==> At(BuildAt(obj, p, value), r).Obj?
    ensures forall r :: p < r ==> At(BuildAt(obj, p, value), r) == Undefined
    ensures forall r :: Diverge(p, r) ==> At(BuildAt(obj, p, value), r) == At(obj, r)
  {
    var b := BuildAt(obj, p, value);
    BuildAtFind(obj, p, value);
    forall r | r < p ensures At(b, r).Obj? {
      BuildAtPrefix(obj, p, value, r);
    }
    forall r | p < r ensures At(b, r) == Undefined {
      assert r == p + r[|p|..];
      AtAppend(b, p, r[|p|..]);
      AtBelowLeaf(b, p, r[|p|..]);
    }
    forall r | Diverge(p, r) ensures At(b, r) == At(obj, r) {
      BuildAtFrame(obj, p, value, r);
    }
  }

  /** Inserting a shaped value keeps a shaped tree shaped. */
  lemma {:induction false} BuildAtShaped(obj: Value, p: seq<string>, value: Value)
    requires Shaped(obj) && obj.Obj? && ValidPath(p) && Shaped(value)
    ensures Shaped(BuildAt(obj, p, value))
    decreases |p|
  {
    var ps := obj.props;
    if |p| == 1 {
      PutShaped(ps, p[0], value);
    } else {
      var current := Get(obj, p[0]);
      var child := if Truthy(current) then current else Obj([]);
      assert Shaped(current) by {
        var i := KeyIndex(ps, p[0]);
      }
      if child.Obj? {
        assert ValidPath(p[1..]) by { assert forall m :: 0 <= m < |p| - 1 ==> p[1..][m] == p[m + 1]; }
        BuildAtShaped(child, p[1..], value);
      }
      PutShaped(ps, p[0], BuildAt(child, p[1..], value));
    }
  }

  // ----- getObjectFromTranslations -----

  /** Insert every path of `keys`, in order, with the value it has in `input`. */
  function BuildAll(obj: Value, keys: seq<string>, input: Value): Value
    decreases |keys|
  {
    if keys == [] then obj else BuildAll(BuildObject(obj, keys[0], FindInnerValue(input, keys[0])), keys[1..], input)
  }

  /** `getObjectFromTranslations(tObject, inputObject)`. */
  function FromTranslations(tObject: seq<Prop>, input: Value): Value
  {
    BuildAll(Obj([]), Flatten(tObject), input)
  }

  /** Building the paths from the `i`th on is building the `i`th, then the rest. */
  lemma BuildAllNext(obj: Value, keys: seq<string>, i: nat, input: Value)
    requires i < |keys|
    ensures BuildAll(obj, keys[i..], input) == BuildAll(BuildObject(obj, keys[i], FindInnerValue(input, keys[i])), keys[i + 1..], input)
  {
    assert keys[i..][0] == keys[i] && keys[i..][1..] == keys[i + 1..];
  }

  /** `buildObject` on an object with distinct keys keeps them distinct. */
  lemma BuildKeepsDistinct(obj: Value, key: string, value: Value)
    requires obj.Obj? && DistinctKeys(obj.props)
    ensures BuildObject(obj, key, value).Obj? && DistinctKeys(BuildObject(obj, key, value).props)
  {
    var built := BuildObject(obj, key, value);
    var k := Split(key)[0];
    KeyIndexIn(obj.props, k);
    if Keys(built.props) != Keys(obj.props) {
      assert k !in Keys(obj.props);
    }
    assert forall m :: 0 <= m < |built.props| ==> built.props[m].key == Keys(built.props)[m];
  }

  /** The imperative original: a fresh object filled path by path. */
  method GetObjectFromTranslations(tObject: seq<Prop>, input: Value) returns (obj: Value)
    ensures obj == FromTranslations(tObject, input)
  {
    obj := Obj([]);
    var keys := GetObjectNestedProperties(tObject);
    var i := 0;
    while i < |keys|
      invariant 0 <= i <= |keys|
      invariant obj.Obj? && DistinctKeys(obj.props)
      invariant BuildAll(obj, keys[i..], input) == FromTranslations(tObject, input)
    {
      BuildAllNext(obj, keys, i, input);
      var built := BuildObject(obj, keys[i], FindInnerValue(input, keys[i]));
      BuildKeepsDistinct(obj, keys[i], FindInnerValue(input, keys[i]));
      AssignSelf(built.props);
      obj := Obj(Assign(built.props, built.props));
      i := i + 1;
    }
  }

  /**
   * A tree built from `input` along the paths `keys`: a JSON tree whose every
   * string is the input's string at a listed path, and whose every object is
   * an object of the input lying above a listed path (or the root).
   */
  ghost predicate BuiltFrom(v: Value, input: Value, keys: seq<string>)
  {
    v.Obj? && JsonTree(v) && Tidy(v) &&
    (forall r :: At(v, r).Str? ==> At(input, r) == At(v, r) && Join(r) in keys) &&
    (forall r :: At(v, r).Obj? ==> At(input, r).Obj? && (r == [] || exists i :: 0 <= i < |keys| && r < Split(keys[i])))
  }

  /** One `buildObject` of a listed input leaf: the leaf lands, earlier leaves stay, the shape is kept. */
  lemma BuildStep(v: Value, input: Value, keys: seq<string>, x: string)
    requires JsonTree(input) && BuiltFrom(v, input, keys) && x in keys && At(input, Split(x)).Str?
    ensures BuiltFrom(BuildObject(v, x, FindInnerValue(input, x)), input, keys)
    ensures At(BuildObject(v, x, FindInnerValue(input, x)), Split(x)) == At(input, Split(x))
    ensures forall r :: At(v, r).Str? ==> At(BuildObject(v, x, FindInnerValue(input, x)), r) == At(v, r)
  {
    var p := Split(x);
    var value := At(input, p);
    JoinSplit(x);
    FindInnerValueAt(input, p);
    BuildObjectAt(v, p, value);
    assert BuildObject(v, x, FindInnerValue(input, x)) == BuildAt(v, p, value);
    JsonTreePathValid(input, p);
    LeafPath(input, p);
    NoLeafAbove(v, p);
    BuildAtShape(v, p, value);
    BuildAtJson(v, p, value);
    var w :| 0 <= w < |keys| && keys[w] == x;
    BuildStepStrs(v, input, keys, p, w);
    BuildStepObjs(v, input, keys, p, w);
    BuildStepKeeps(v, input, keys, p);
  }

  /** Two paths are equal, one lies above the other, or they part at some segment. */
  lemma PathCases(p: seq<string>, r: seq<string>)
    ensures r == p || r < p || p < r || Diverge(p, r)
  {
  }

  /** After building a listed input leaf, every string is the input's string at a listed path. */
  lemma BuildStepStrs(v: Value, input: Value, keys: seq<string>, p: seq<string>, w: nat)
    requires BuiltFrom(v, input, keys) && w < |keys| && Join(p) == keys[w]
    requires p != [] && ClearPath(v, p) && At(input, p).Str?
    ensures forall r :: At(BuildAt(v, p, At(input, p)), r).Str? ==> At(input, r) == At(BuildAt(v, p, At(input, p)), r) && Join(r) in keys
  {
    var n := BuildAt(v, p, At(input, p));
    BuildAtShape(v, p, At(input, p));
    forall r | At(n, r).Str? ensures At(input, r) == At(n, r) && Join(r) in keys {
      PathCases(p, r);
    }
  }

  /** After building a listed input leaf, every object is an input object above a listed path. */
  lemma BuildStepObjs(v: Value, input: Value, keys: seq<string>, p: seq<string>, w: nat)
    requires BuiltFrom(v, input, keys) && w < |keys| && p == Split(keys[w])
    requires p != [] && ClearPath(v, p) && At(input, p).Str?
    ensures forall r :: At(BuildAt(v, p, At(input, p)), r).Obj? ==> At(input, r).Obj? && (r == [] || exists i :: 0 <= i < |keys| && r < Split(keys[i]))
  {
    var n := BuildAt(v, p, At(input, p));
    BuildAtShape(v, p, At(input, p));
    LeafPath(input, p);
    forall r | At(n, r).Obj? ensures At(input, r).Obj? && (r == [] || exists i :: 0 <= i < |keys| && r < Split(keys[i])) {
      PathCases(p, r);
      if r < p {
        assert r < Split(keys[w]);
      }
    }
  }

  /** Building a listed input leaf leaves every string already there in place. */
  lemma BuildStepKeeps(v: Value, input: Value, keys: seq<string>, p: seq<string>)
    requires BuiltFrom(v, input, keys)
    requires p != [] && ClearPath(v, p) && At(input, p).Str?
    ensures forall r :: At(v, r).Str? ==> At(BuildAt(v, p, At(input, p)), r) == At(v, r)
  {
    var n := BuildAt(v, p, At(input, p));
    BuildAtShape(v, p, At(input, p));
    LeafPath(input, p);
    forall r | At(v, r).Str? ensures At(n, r) == At(v, r) {
      PathCases(p, r);
    }
  }

  lemma BuildAllFacts(v: Value, xs: seq<string>, input: Value, keys: seq<string>)
    requires JsonTree(input) && BuiltFrom(v, input, keys)
    requires forall x :: x in xs ==> x in keys && At(input, Split(x)).Str?
    ensures BuiltFrom(BuildAll(v, xs, input), input, keys)
    ensures forall r :: At(v, r).Str? ==> At(BuildAll(v, xs, input), r) == At(v, r)
    ensures forall x :: x in xs ==> At(BuildAll(v, xs, input), Split(x)) == At(input, Split(x))
  {
    BuildAllBuilt(v, xs, input, keys);
    BuildAllKeeps(v, xs, input, keys);
    forall y | y in xs ensures At(BuildAll(v, xs, input), Split(y)) == At(input, Split(y)) {
      BuildAllLands(v, xs, input, keys, y);
    }
  }

  lemma {:induction false} BuildAllBuilt(v: Value, xs: seq<string>, input: Value, keys: seq<string>)
    requires JsonTree(input) && BuiltFrom(v, input, keys)
    requires forall x :: x in xs ==> x in keys && At(input, Split(x)).Str?
    ensures BuiltFrom(BuildAll(v, xs, input), input, keys)
    decreases |xs|
  {
    if xs != [] {
      BuildStep(v, input, keys, xs[0]);
      BuildAllBuilt(BuildObject(v, xs[0], FindInnerValue(input, xs[0])), xs[1..], input, keys);
    }
  }

  lemma {:induction false} BuildAllKeeps(v: Value, xs: seq<string>, input: Value, keys: seq<string>)
    requires JsonTree(input) && BuiltFrom(v, input, keys)
    requires forall x :: x in xs ==> x in keys && At(input, Split(x)).Str?
    ensures forall r :: At(v, r).Str? ==> At(BuildAll(v, xs, input), r) == At(v, r)
    decreases |xs|
  {
    if xs != [] {
      var next := BuildObject(v, xs[0], FindInnerValue(input, xs[0]));
      BuildStep(v, input, keys, xs[0]);
      BuildAllKeeps(next, xs[1..], input, keys);
      assert BuildAll(v, xs, input) == BuildAll(next, xs[1..], input);
    }
  }

  lemma {:induction false} BuildAllLands(v: Value, xs: seq<string>, input: Value, keys: seq<string>, y: string)
    requires JsonTree(input) && BuiltFrom(v, input, keys)
    requires forall x :: x in xs ==> x in keys && At(input, Split(x)).Str?
    requires y in xs
    ensures At(BuildAll(v, xs, input), Split(y)) == At(input, Split(y))
    decreases |xs|
  {
    var x := xs[0];
    var next := BuildObject(v, x, FindInnerValue(input, x));
    BuildStepLands(v, input, keys, x);
    assert BuildAll(v, xs, input) == BuildAll(next, xs[1..], input);
    if y == x {
      BuildAllKeepsAt(next, xs[1..], input, keys, Split(x));
    } else {
      ListedTail(xs, keys, input, y);
      BuildAllLands(next, xs[1..], input, keys, y);
    }
  }

  /** The tail of a list of input leaves is one too, and holds every later element. */
  lemma ListedTail(xs: seq<string>, keys: seq<string>, input: Value, y: string)
    requires forall x :: x in xs ==> x in keys && At(input, Split(x)).Str?
    requires y in xs && y != xs[0]
    ensures y in xs[1..]
    ensures forall x :: x in xs[1..] ==> x in keys && At(input, Split(x)).Str?
  {
    assert xs == [xs[0]] + xs[1..];
  }

  /** `BuildStep` without its frame: the built tree and the leaf it lands. */
  lemma BuildStepLands(v: Value, input: Value, keys: seq<string>, x: string)
    requires JsonTree(input) && BuiltFrom(v, input, keys) && x in keys && At(input, Split(x)).Str?
    ensures BuiltFrom(BuildObject(v, x, FindInnerValue(input, x)), input, keys)
    ensures At(BuildObject(v, x, FindInnerValue(input, x)), Split(x)) == At(input, Split(x))
  {
    BuildStep(v, input, keys, x);
  }

  /** `BuildAllKeeps` at one path. */
  lemma BuildAllKeepsAt(v: Value, xs: seq<string>, input: Value, keys: seq<string>, r: seq<string>)
    requires JsonTree(input) && BuiltFrom(v, input, keys)
    requires forall x :: x in xs ==> x in keys && At(input, Split(x)).Str?
    requires At(v, r).Str?
    ensures At(BuildAll(v, xs, input), r) == At(v, r)
  {
    BuildAllKeeps(v, xs, input, keys);
  }

  /**
   * `getObjectFromTranslations(tObject, input)` when every path of `tObject`
   * is a leaf of `input`: each path holds the input's value, and the result
   * holds nothing else: its strings are input strings at those paths and its
   * objects lie above them.
   */
  lemma FromTranslationsFacts(tObject: seq<Prop>, input: Value)
    requires JsonTree(input) && input.Obj?
    requires forall x :: x in Flatten(tObject) ==> At(input, Split(x)).Str?
    ensures BuiltFrom(FromTranslations(tObject, input), input, Flatten(tObject))
    ensures forall x :: x in Flatten(tObject) ==> At(FromTranslations(tObject, input), Split(x)) == At(input, Split(x))
  {
    var empty := Obj([]);
    forall r ensures r == [] || At(empty, r) == Undefined {
      if r != [] {
        AtUndefined(r[1..]);
      }
    }
    assert BuiltFrom(empty, input, Flatten(tObject));
    BuildAllFacts(empty, Flatten(tObject), input, Flatten(tObject));
  }
}
