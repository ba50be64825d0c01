/**
 * JavaScript values as they occur in a translation file: strings, plain
 * objects and `undefined`. An object is an association list that keeps
 * insertion order, the order `Object.keys` and `for ... in` report.
 */
module JsValue {
  import opened JsString

  datatype Value = Undefined | Str(s: string) | Obj(props: seq<Prop>)
  datatype Prop = Prop(key: string, val: Value)

  /** `Object.keys(obj)`. */
  function Keys(ps: seq<Prop>): (ks: seq<string>)
    ensures |ks| == |ps|
    ensures forall i :: 0 <= i < |ps| ==> ks[i] == ps[i].key
  {
    seq(|ps|, i requires 0 <= i < |ps| => ps[i].key)
  }

  /** A JavaScript object never holds the same key twice. */
  predicate DistinctKeys(ps: seq<Prop>)
  {
    forall i, j :: 0 <= i < j < |ps| ==> ps[i].key != ps[j].key
  }

  /** Position of key `k`, or `|ps|` when the object has no such own property. */
  function KeyIndex(ps: seq<Prop>, k: string): (i: nat)
    ensures i <= |ps|
    ensures i < |ps| ==> ps[i].key == k
    ensures forall j :: 0 <= j < i ==> ps[j].key != k
  {
    if ps == [] then 0 else if ps[0].key == k then 0 else 1 + KeyIndex(ps[1..], k)
  }

  predicate HasKey(ps: seq<Prop>, k: string)
  {
    KeyIndex(ps, k) < |ps|
  }

  /**
   * `v[k]`: the property's value, or `undefined` when it is missing. Reading a
   * property of a string or of `undefined` is `undefined` here (see README).
   */
  function Get(v: Value, k: string): Value
  {
    match v
    case Obj(ps) => var i := KeyIndex(ps, k); if i < |ps| then ps[i].val else Undefined
    case _ => Undefined
  }

  /** `obj[k] = x`: overwrite in place when present, otherwise append. */
  function Put(ps: seq<Prop>, k: string, x: Value): seq<Prop>
  {
    var i := KeyIndex(ps, k);
    if i < |ps| then ps[i := Prop(k, x)] else ps + [Prop(k, x)]
  }

  /** `delete obj[k]`. */
  function Remove(ps: seq<Prop>, k: string): seq<Prop>
  {
    var i := KeyIndex(ps, k);
    if i < |ps| then ps[..i] + ps[i + 1..] else ps
  }

  /** `Object.assign(target, source)`: every own property of `source`, in order, is put on `target`. */
  function Assign(target: seq<Prop>, source: seq<Prop>): seq<Prop>
    decreases |source|
  {
    if source == [] then target else Assign(Put(target, source[0].key, source[0].val), source[1..])
  }

  /** JavaScript truthiness: objects and non-empty strings. */
  predicate Truthy(v: Value)
  {
    v.Obj? || (v.Str? && v.s != "")
  }

  /** `isObject(item)`; arrays and `null` do not exist in this model. */
  predicate IsObject(v: Value)
  {
    v.Obj?
  }

  /** Distinct keys at every level. */
  predicate WellFormed(v: Value)
  {
    v.Obj? ==> DistinctKeys(v.props) && forall i :: 0 <= i < |v.props| ==> WellFormed(v.props[i].val)
  }

  /**
   * A tree as `JSON.parse` yields it here: strings and objects only, no
   * `undefined`, distinct keys, and every key a valid path segment.
   */
  predicate JsonTree(v: Value)
  {
    match v
    case Undefined => false
    case Str(_) => true
    case Obj(ps) => DistinctKeys(ps) && forall i :: 0 <= i < |ps| ==> ValidKey(ps[i].key) && JsonTree(ps[i].val)
  }

  /** A tree that may also hold `undefined` leaves, as the purge leaves it before clearing. */
  predicate Shaped(v: Value)
  {
    match v
    case Obj(ps) => DistinctKeys(ps) && forall i :: 0 <= i < |ps| ==> ValidKey(ps[i].key) && Shaped(ps[i].val)
    case _ => true
  }

  /**
   * What `_clearEmptyKeys` leaves behind: no `undefined` value and no empty
   * object anywhere below the root.
   */
  predicate Tidy(v: Value)
  {
    v.Obj? ==> forall i :: 0 <= i < |v.props| ==> Tidy(v.props[i].val) && v.props[i].val != Undefined && v.props[i].val != Obj([])
  }

  /** The value at a path of segments, walking through objects only. */
  function At(v: Value, p: seq<string>): Value
    decreases |p|
  {
    if p == [] then v else if v.Obj? then At(Get(v, p[0]), p[1..]) else Undefined
  }

  // ----- lemmas on single objects -----

  lemma KeyIndexIn(ps: seq<Prop>, k: string)
    ensures HasKey(ps, k) <==> k in Keys(ps)
  {
    if k in Keys(ps) {
      var j :| 0 <= j < |ps| && Keys(ps)[j] == k;
      assert KeyIndex(ps, k) <= j;
    }
  }

  lemma KeyIndexDistinct(ps: seq<Prop>, j: nat)
    requires DistinctKeys(ps) && j < |ps|
    ensures KeyIndex(ps, ps[j].key) == j
  {
  }

  /** `KeyIndex` is determined by its contract: the first position holding the key. */
  lemma KeyIndexUnique(ps: seq<Prop>, k: string, j: nat)
    requires j <= |ps|
    requires j < |ps| ==> ps[j].key == k
    requires forall m :: 0 <= m < j ==> ps[m].key != k
    ensures KeyIndex(ps, k) == j
  {
    var i := KeyIndex(ps, k);
    assert !(i < j) && !(j < i);
  }

  lemma GetPut(ps: seq<Prop>, k: string, x: Value, k2: string)
    ensures Get(Obj(Put(ps, k, x)), k2) == if k2 == k then x else Get(Obj(ps), k2)
  {
    var i := KeyIndex(ps, k);
    var qs := Put(ps, k, x);
    if k2 != k {
      var j := KeyIndex(ps, k2);
      if i < |ps| {
        assert forall m :: 0 <= m < |ps| ==> qs[m].key == ps[m].key;
        KeyIndexUnique(qs, k2, j);
        assert j < |ps| ==> qs[j] == ps[j];
      } else {
        assert forall m :: 0 <= m < |ps| ==> qs[m] == ps[m];
        if j < |ps| {
          KeyIndexUnique(qs, k2, j);
        } else {
          KeyIndexUnique(qs, k2, |qs|);
        }
      }
    } else {
      KeyIndexUnique(qs, k, i);
    }
  }

  /** Putting one key leaves every other key reading as before. */
  lemma PutFrame(ps: seq<Prop>, k: string, x: Value)
    ensures forall j :: j != k ==> Get(Obj(Put(ps, k, x)), j) == Get(Obj(ps), j)
  {
    forall j | j != k ensures Get(Obj(Put(ps, k, x)), j) == Get(Obj(ps), j) {
      GetPut(ps, k, x, j);
    }
  }

  lemma KeysPut(ps: seq<Prop>, k: string, x: Value)
    ensures Keys(Put(ps, k, x)) == if HasKey(ps, k) then Keys(ps) else Keys(ps) + [k]
  {
  }

  lemma DistinctKeysPut(ps: seq<Prop>, k: string, x: Value)
    requires DistinctKeys(ps)
    ensures DistinctKeys(Put(ps, k, x))
  {
  }

  /** Putting a tree under a valid key keeps a tree a tree, and keeps it tidy. */
  lemma PutJson(ps: seq<Prop>, k: string, x: Value)
    requires JsonTree(Obj(ps)) && ValidKey(k) && JsonTree(x)
    ensures JsonTree(Obj(Put(ps, k, x)))
    ensures Tidy(Obj(ps)) && Tidy(x) && x != Obj([]) ==> Tidy(Obj(Put(ps, k, x)))
  {
    DistinctKeysPut(ps, k, x);
  }

  lemma PutShaped(ps: seq<Prop>, k: string, x: Value)
    requires Shaped(Obj(ps)) && ValidKey(k) && Shaped(x)
    ensures Shaped(Obj(Put(ps, k, x)))
  {
    DistinctKeysPut(ps, k, x);
  }

  lemma {:induction false} JsonTreeShaped(v: Value)
    requires JsonTree(v)
    ensures Shaped(v)
  {
    if v.Obj? {
      forall i | 0 <= i < |v.props| ensures Shaped(v.props[i].val) {
        JsonTreeShaped(v.props[i].val);
      }
    }
  }

  lemma PutPut(ps: seq<Prop>, k: string, x: Value, y: Value)
    ensures Put(Put(ps, k, x), k, y) == Put(ps, k, y)
  {
    var i := KeyIndex(ps, k);
    var qs := Put(ps, k, x);
    if i < |ps| {
      assert forall m :: 0 <= m < i ==> qs[m] == ps[m];
      KeyIndexUnique(qs, k, i);
      assert qs[i := Prop(k, y)] == ps[i := Prop(k, y)];
    } else {
      assert forall m :: 0 <= m < |ps| ==> qs[m] == ps[m];
      KeyIndexUnique(qs, k, |ps|);
      assert qs[|ps| := Prop(k, y)] == ps + [Prop(k, y)];
    }
  }

  /** Putting back the value a key already holds changes nothing. */
  lemma PutSame(ps: seq<Prop>, k: string)
    requires HasKey(ps, k)
    ensures Put(ps, k, Get(Obj(ps), k)) == ps
  {
  }

  /** Looking a key up in `[p] + qs`. */
  lemma GetCons(p: Prop, qs: seq<Prop>, k: string)
    ensures Get(Obj([p] + qs), k) == if p.key == k then p.val else Get(Obj(qs), k)
  {
    assert ([p] + qs)[1..] == qs;
  }

  /** The key index in `[h] + tail` for a key that `h` does not hold. */
  lemma KeyIndexCons(h: Prop, tail: seq<Prop>, k: string)
    requires h.key != k
    ensures KeyIndex([h] + tail, k) == 1 + KeyIndex(tail, k)
  {
    assert ([h] + tail)[1..] == tail;
  }

  /** Deleting a key that the first property does not hold only edits the tail. */
  lemma RemoveCons(h: Prop, tail: seq<Prop>, k: string)
    requires h.key != k
    ensures Remove([h] + tail, k) == [h] + Remove(tail, k)
  {
    KeyIndexCons(h, tail, k);
    var i := KeyIndex(tail, k);
    if i < |tail| {
      ConsCut(h, tail, i);
    }
  }

  /** Cutting position `i + 1` out of `[h] + t` is cutting position `i` out of `t`. */
  lemma ConsCut<T>(h: T, t: seq<T>, i: nat)
    requires i < |t|
    ensures ([h] + t)[..i + 1] + ([h] + t)[i + 2..] == [h] + (t[..i] + t[i + 1..])
  {
    assert ([h] + t)[..i + 1] == [h] + t[..i];
    assert ([h] + t)[i + 2..] == t[i + 1..];
  }

  /** Removing the first key leaves the tail. */
  lemma FirstKeyRemove(p: Prop, rest: seq<Prop>, k: string)
    requires p.key == k
    ensures Remove([p] + rest, k) == rest
  {
    var cur := [p] + rest;
    assert KeyIndex(cur, k) == 0;
    assert cur[..0] + cur[1..] == rest;
  }

  /** After `delete obj[k]`, `k` is missing and every other key reads as before. */
  lemma {:induction false} GetRemove(ps: seq<Prop>, k: string, k2: string)
    requires DistinctKeys(ps)
    ensures Get(Obj(Remove(ps, k)), k2) == if k2 == k then Undefined else Get(Obj(ps), k2)
    decreases |ps|
  {
    if ps != [] {
      var tail := ps[1..];
      assert ps == [ps[0]] + tail;
      GetCons(ps[0], tail, k2);
      if ps[0].key == k {
        FirstKeyRemove(ps[0], tail, k);
        if k2 == k {
          KeyIndexUnique(tail, k, |tail|);
        }
      } else {
        RemoveCons(ps[0], tail, k);
        GetCons(ps[0], Remove(tail, k), k2);
        GetRemove(tail, k, k2);
      }
    }
  }

  lemma DistinctKeysRemove(ps: seq<Prop>, k: string)
    requires DistinctKeys(ps)
    ensures DistinctKeys(Remove(ps, k))
  {
    var i := KeyIndex(ps, k);
    if i < |ps| {
      var qs := Remove(ps, k);
      assert forall m :: 0 <= m < |qs| ==> qs[m] == if m < i then ps[m] else ps[m + 1];
    }
  }

  /** Two objects with distinct keys that agree key by key and list keys in the same order are equal. */
  lemma {:induction false} PropsExt(ps: seq<Prop>, qs: seq<Prop>)
    requires Keys(ps) == Keys(qs)
    requires DistinctKeys(ps)
    requires forall k :: Get(Obj(ps), k) == Get(Obj(qs), k)
    ensures ps == qs
  {
    forall i | 0 <= i < |ps| ensures ps[i] == qs[i] {
      assert ps[i].key == qs[i].key by { assert Keys(ps)[i] == Keys(qs)[i]; }
      KeyIndexDistinct(ps, i);
      assert KeyIndex(qs, ps[i].key) == i;
      assert Get(Obj(ps), ps[i].key) == Get(Obj(qs), ps[i].key);
    }
  }

  /** `Object.assign(obj, obj)` leaves `obj` as it is. */
  lemma AssignSelf(ps: seq<Prop>)
    requires DistinctKeys(ps)
    ensures Assign(ps, ps) == ps
  {
    AssignSelfFrom(ps, 0);
  }

  lemma {:induction false} AssignSelfFrom(ps: seq<Prop>, i: nat)
    requires DistinctKeys(ps) && i <= |ps|
    ensures Assign(ps, ps[i..]) == ps
    decreases |ps| - i
  {
    if i < |ps| {
      KeyIndexDistinct(ps, i);
      assert Put(ps, ps[i].key, ps[i].val) == ps;
      assert ps[i..][1..] == ps[i + 1..];
      AssignSelfFrom(ps, i + 1);
    }
  }

  /** `Object.assign({}, obj)` is a copy of `obj`. */
  lemma AssignEmpty(ps: seq<Prop>)
    requires DistinctKeys(ps)
    ensures Assign([], ps) == ps
  {
    AssignCopyFrom(ps, 0);
  }

  lemma {:induction false} AssignCopyFrom(ps: seq<Prop>, i: nat)
    requires DistinctKeys(ps) && i <= |ps|
    ensures Assign(ps[..i], ps[i..]) == ps
    decreases |ps| - i
  {
    if i < |ps| {
      assert KeyIndex(ps[..i], ps[i].key) == i;
      assert Put(ps[..i], ps[i].key, ps[i].val) == ps[..i + 1];
      assert ps[i..][1..] == ps[i + 1..];
      AssignCopyFrom(ps, i + 1);
    } else {
      assert ps[..i] == ps;
    }
  }

  // ----- lemmas on paths -----

  lemma AtCons(v: Value, k: string, rest: seq<string>)
    ensures At(v, [k] + rest) == if v.Obj? then At(Get(v, k), rest) else Undefined
  {
    assert ([k] + rest)[1..] == rest;
  }

  lemma AtUndefined(p: seq<string>)
    ensures At(Undefined, p) == Undefined
  {
  }

  lemma {:induction false} AtAppend(v: Value, p: seq<string>, q: seq<string>)
    ensures At(v, p + q) == At(At(v, p), q)
    decreases p
  {
    if p != [] {
      assert (p + q)[1..] == p[1..] + q;
      assert (p + q)[0] == p[0];
      if v.Obj? {
        AtAppend(Get(v, p[0]), p[1..], q);
      } else {
        AtUndefined(q);
      }
    } else {
      assert p + q == q;
    }
  }

  /** Below a string or `undefined` there is nothing. */
  lemma {:induction false} AtBelowLeaf(v: Value, p: seq<string>, q: seq<string>)
    requires !At(v, p).Obj? && q != []
    ensures At(v, p + q) == Undefined
  {
    AtAppend(v, p, q);
  }

  /** Above a defined leaf every prefix is an object, and below it nothing is defined. */
  lemma LeafPath(v: Value, p: seq<string>)
    requires At(v, p) != Undefined && !At(v, p).Obj?
    ensures forall q :: q < p ==> At(v, q).Obj?
    ensures forall r :: p < r ==> At(v, r) == Undefined
  {
    forall q | q < p ensures At(v, q).Obj? {
      assert p == q + p[|q|..];
      if !At(v, q).Obj? {
        AtBelowLeaf(v, q, p[|q|..]);
      }
    }
    forall r | p < r ensures At(v, r) == Undefined {
      assert r == p + r[|p|..];
      AtBelowLeaf(v, p, r[|p|..]);
    }
  }

  /** Below the root a tidy tree holds no empty object, and what it holds is tidy. */
  lemma {:induction false} TidyAt(v: Value, p: seq<string>)
    requires Tidy(v) && p != []
    ensures At(v, p) != Obj([]) && Tidy(At(v, p))
    decreases |p|
  {
    if v.Obj? {
      var c := Get(v, p[0]);
      assert c != Obj([]) && Tidy(c) by {
        var i := KeyIndex(v.props, p[0]);
      }
      if |p| > 1 {
        TidyAt(c, p[1..]);
      } else {
        assert p[1..] == [];
      }
    }
  }

  lemma {:induction false} NonEmptyHasLeaf(w: Value)
    requires JsonTree(w) && Tidy(w) && w.Obj? && w != Obj([])
    ensures exists q :: q != [] && At(w, q).Str?
    decreases w
  {
    var k := w.props[0].key;
    var c := w.props[0].val;
    assert KeyIndex(w.props, k) == 0;
    if c.Str? {
      AtCons(w, k, []);
      assert [k] + [] == [k];
      assert At(w, [k]).Str?;
    } else {
      NonEmptyHasLeaf(c);
      var q :| q != [] && At(c, q).Str?;
      AtCons(w, k, q);
      assert At(w, [k] + q).Str?;
    }
  }

  /** Below an object of a tidy tree there is always a string. */
  lemma TidyLeafBelow(v: Value, p: seq<string>)
    requires JsonTree(v) && Tidy(v) && p != [] && At(v, p).Obj?
    ensures exists q :: p < q && At(v, q).Str?
  {
    TidyAt(v, p);
    JsonTreeAt(v, p);
    NonEmptyHasLeaf(At(v, p));
    var q :| q != [] && At(At(v, p), q).Str?;
    AtAppend(v, p, q);
    assert p < p + q;
  }

  lemma {:induction false} ShapedWellFormed(v: Value)
    requires Shaped(v)
    ensures WellFormed(v)
  {
    if v.Obj? {
      forall i | 0 <= i < |v.props| ensures WellFormed(v.props[i].val) {
        ShapedWellFormed(v.props[i].val);
      }
    }
  }

  lemma {:induction false} JsonTreeGet(v: Value, k: string)
    requires JsonTree(v) && v.Obj?
    ensures Get(v, k) == Undefined || JsonTree(Get(v, k))
  {
  }

  lemma {:induction false} JsonTreeAt(v: Value, p: seq<string>)
    requires JsonTree(v)
    ensures At(v, p) == Undefined || JsonTree(At(v, p))
  {
    if p != [] && v.Obj? {
      JsonTreeGet(v, p[0]);
      if Get(v, p[0]) != Undefined {
        JsonTreeAt(Get(v, p[0]), p[1..]);
      } else {
        AtUndefined(p[1..]);
      }
    }
  }

  lemma JsonTreeWellFormed(v: Value)
    requires JsonTree(v)
    ensures WellFormed(v)
  {
  }

  /** In a tree every present key is a valid segment: a path that reaches a value is a valid path. */
  lemma {:induction false} JsonTreePathValid(v: Value, p: seq<string>)
    requires JsonTree(v) && p != [] && At(v, p) != Undefined
    ensures ValidPath(p)
  {
    assert v.Obj?;
    AtUndefined(p[1..]);
    assert HasKey(v.props, p[0]);
    assert ValidKey(p[0]);
    if |p| > 1 {
      JsonTreePathValid(Get(v, p[0]), p[1..]);
      assert forall m :: 1 <= m < |p| ==> p[m] == p[1..][m - 1];
    }
  }
}
