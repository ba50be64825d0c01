/**
 * Tree maintenance in i18n-generate.js: the recursive in-place merge
 * (`mergeDeep`), removal of `undefined` leaves and emptied branches
 * (`_clearEmptyKeys`), purging leaves the input no longer defines
 * (`_purgeOutput`) and sorting the top-level keys (`sortObject`).
 */
module TreeOps {
  import opened JsString
  import opened JsValue
  import opened KeyPath

  // ----- mergeDeep -----

  /**
   * `mergeDeep(target, source)` with a single source: when both are objects,
   * every property of the source in order is merged into the target.
   */
  function MergeOne(t: Value, s: Value): (r: Value)
    ensures t.Obj? ==> r.Obj?
    decreases s, 1
  {
    if IsObject(t) && IsObject(s) then Obj(MergeProps(t.props, s.props)) else t
  }

  /** The `for (const key in source)` loop. */
  function MergeProps(tps: seq<Prop>, sps: seq<Prop>): seq<Prop>
    decreases sps, 0
  {
    if sps == [] then tps else MergeProps(MergeKey(tps, sps[0].key, sps[0].val), sps[1..])
  }

  /**
   * One turn of the loop: an object in the source is merged into the
   * target's slot, which first becomes `{}` when it is missing or falsy (a
   * truthy string stays and the merge into it does nothing); any other
   * source value overwrites the slot.
   */
  function MergeKey(tps: seq<Prop>, k: string, sv: Value): seq<Prop>
    decreases sv, 2
  {
    if IsObject(sv) then
      var t1 := if !Truthy(Get(Obj(tps), k)) then Put(tps, k, Obj([])) else tps;
      var child := Get(Obj(t1), k);
      if child.Obj? then Put(t1, k, MergeOne(child, sv)) else t1
    else
      Put(tps, k, sv)
  }

  /** `mergeDeep(target, ...sources)`: the sources merged in one after another. */
  function MergeAll(target: Value, sources: seq<Value>): (r: Value)
    ensures target.Obj? ==> r.Obj?
    decreases |sources|
  {
    if sources == [] then target else MergeAll(MergeOne(target, sources[0]), sources[1..])
  }

  /** The imperative original for one source: the `for…in` loop over the source's keys. */
  method MergeInto(target: Value, source: Value) returns (r: Value)
    ensures r == MergeOne(target, source)
    decreases source
  {
    r := target;
    if IsObject(target) && IsObject(source) {
      var sps := source.props;
      var tps := target.props;
      var i := 0;
      while i < |sps|
        invariant 0 <= i <= |sps|
        invariant MergeProps(tps, sps[i..]) == MergeProps(target.props, sps)
      {
        assert sps[i..][0] == sps[i] && sps[i..][1..] == sps[i + 1..];
        var key := sps[i].key;
        var sv := sps[i].val;
        if IsObject(sv) {
          if !Truthy(Get(Obj(tps), key)) {
            tps := Put(tps, key, Obj([]));
          }
          var child := Get(Obj(tps), key);
          if child.Obj? {
            var merged := MergeInto(child, sv);
            tps := Put(tps, key, merged);
          }
        } else {
          tps := Put(tps, key, sv);
        }
        i := i + 1;
      }
      r := Obj(tps);
    }
  }

  /** The imperative original: the tail call `mergeDeep(target, ...sources)` as a loop over the sources. */
  method MergeDeep(target: Value, sources: seq<Value>) returns (r: Value)
    ensures r == MergeAll(target, sources)
  {
    r := target;
    var i := 0;
    while i < |sources|
      invariant 0 <= i <= |sources|
      invariant MergeAll(r, sources[i..]) == MergeAll(target, sources)
    {
      assert sources[i..][0] == sources[i] && sources[i..][1..] == sources[i + 1..];
      r := MergeInto(r, sources[i]);
      i := i + 1;
    }
  }

  /** Sources are applied left to right: merging `s1 + s2` is merging `s1`, then `s2`. */
  lemma {:induction false} MergeAllAppend(t: Value, s1: seq<Value>, s2: seq<Value>)
    ensures MergeAll(t, s1 + s2) == MergeAll(MergeAll(t, s1), s2)
    decreases |s1|
  {
    if s1 == [] {
      assert s1 + s2 == s2;
    } else {
      assert (s1 + s2)[0] == s1[0] && (s1 + s2)[1..] == s1[1..] + s2;
      MergeAllAppend(MergeOne(t, s1[0]), s1[1..], s2);
    }
  }

  /** What one source property `sv` leaves in a target slot holding `c`. */
  function MergeVal(c: Value, sv: Value): Value
  {
    if IsObject(sv) then (if !Truthy(c) then MergeOne(Obj([]), sv) else if c.Obj? then MergeOne(c, sv) else c) else sv
  }

  lemma MergeKeyGet(tps: seq<Prop>, k: string, sv: Value, k2: string)
    ensures Get(Obj(MergeKey(tps, k, sv)), k2) == if k2 == k then MergeVal(Get(Obj(tps), k), sv) else Get(Obj(tps), k2)
  {
    if IsObject(sv) {
      var c := Get(Obj(tps), k);
      var t1 := if !Truthy(c) then Put(tps, k, Obj([])) else tps;
      GetPut(tps, k, Obj([]), k);
      GetPut(tps, k, Obj([]), k2);
      var child := Get(Obj(t1), k);
      if child.Obj? {
        GetPut(t1, k, MergeOne(child, sv), k2);
      }
    } else {
      GetPut(tps, k, sv, k2);
    }
  }

  lemma {:induction false} MergePropsGet(tps: seq<Prop>, sps: seq<Prop>, k: string)
    requires DistinctKeys(sps)
    ensures Get(Obj(MergeProps(tps, sps)), k) == if HasKey(sps, k) then MergeVal(Get(Obj(tps), k), Get(Obj(sps), k)) else Get(Obj(tps), k)
    decreases |sps|
  {
    if sps != [] {
      var t1 := MergeKey(tps, sps[0].key, sps[0].val);
      MergePropsGet(t1, sps[1..], k);
      MergeKeyGet(tps, sps[0].key, sps[0].val, k);
      if sps[0].key == k {
        assert !HasKey(sps[1..], k) by {
          assert forall j :: 0 <= j < |sps[1..]| ==> sps[1..][j].key == sps[j + 1].key;
        }
      }
    }
  }

  /**
   * Per key, the merge does what the loop body says: a key only in the
   * target keeps its value, a non-object in the source overwrites it, and an
   * object in the source is merged into the slot (a fresh `{}` when the slot
   * is missing or falsy; a non-empty string stays as it was).
   */
  lemma MergeGet(t: Value, s: Value, k: string)
    requires t.Obj? && s.Obj? && DistinctKeys(s.props)
    ensures Get(MergeOne(t, s), k) == if HasKey(s.props, k) then MergeVal(Get(t, k), Get(s, k)) else Get(t, k)
  {
    MergePropsGet(t.props, s.props, k);
  }

  /** The target's keys stay where they were; new keys are appended after them. */
  lemma {:induction false} MergePropsKeys(tps: seq<Prop>, sps: seq<Prop>)
    ensures Keys(tps) <= Keys(MergeProps(tps, sps))
    decreases |sps|
  {
    if sps != [] {
      var k := sps[0].key;
      var sv := sps[0].val;
      var t1 := MergeKey(tps, k, sv);
      assert Keys(tps) <= Keys(t1) by {
        if IsObject(sv) {
          var t0 := if !Truthy(Get(Obj(tps), k)) then Put(tps, k, Obj([])) else tps;
          KeysPut(tps, k, Obj([]));
          var child := Get(Obj(t0), k);
          if child.Obj? {
            KeysPut(t0, k, MergeOne(child, sv));
          }
        } else {
          KeysPut(tps, k, sv);
        }
      }
      MergePropsKeys(t1, sps[1..]);
    }
  }

  /** Merging into an object keeps it that object: its keys are a prefix of the result's. */
  lemma MergeKeepsKeys(t: Value, s: Value)
    requires t.Obj?
    ensures Keys(t.props) <= Keys(MergeOne(t, s).props)
  {
    if s.Obj? {
      MergePropsKeys(t.props, s.props);
    }
  }

  /** Merging a well-formed object into `{}` copies it, keys in the same order. */
  lemma {:induction false} MergeCopy(s: Value)
    requires WellFormed(s) && s.Obj?
    ensures MergeOne(Obj([]), s) == s
    decreases s, 1
  {
    MergePropsFresh([], s.props);
  }

  lemma {:induction false} MergePropsFresh(tps: seq<Prop>, sps: seq<Prop>)
    requires DistinctKeys(sps) && forall i :: 0 <= i < |sps| ==> WellFormed(sps[i].val) && !HasKey(tps, sps[i].key)
    ensures MergeProps(tps, sps) == tps + sps
    decreases sps, 0
  {
    if sps != [] {
      var k := sps[0].key;
      var sv := sps[0].val;
      MergeKeyFresh(tps, k, sv);
      var t1 := tps + [Prop(k, sv)];
      assert MergeProps(tps, sps) == MergeProps(t1, sps[1..]);
      FreshRest(tps, sps);
      MergePropsFresh(t1, sps[1..]);
      MoveFirst(tps, sps);
    }
  }

  lemma MoveFirst(tps: seq<Prop>, sps: seq<Prop>)
    requires sps != []
    ensures tps + sps == (tps + [sps[0]]) + sps[1..]
  {
    assert sps == [sps[0]] + sps[1..];
  }

  /** A key the target lacks is appended with a copy of the source's value. */
  lemma MergeKeyFresh(tps: seq<Prop>, k: string, sv: Value)
    requires WellFormed(sv) && !HasKey(tps, k)
    ensures MergeKey(tps, k, sv) == tps + [Prop(k, sv)]
    decreases sv, 2
  {
    if IsObject(sv) {
      var t0 := Put(tps, k, Obj([]));
      assert t0 == tps + [Prop(k, Obj([]))];
      KeyIndexUnique(t0, k, |tps|);
      MergeCopy(sv);
    }
  }

  /** After the first source key is appended, the remaining source keys are still fresh. */
  lemma FreshRest(tps: seq<Prop>, sps: seq<Prop>)
    requires sps != [] && DistinctKeys(sps) && forall i :: 0 <= i < |sps| ==> !HasKey(tps, sps[i].key)
    ensures forall i :: 0 <= i < |sps[1..]| ==> !HasKey(tps + [sps[0]], sps[1..][i].key)
  {
    var t1 := tps + [sps[0]];
    forall i | 0 <= i < |sps[1..]| ensures !HasKey(t1, sps[1..][i].key) {
      assert sps[1..][i].key == sps[i + 1].key != sps[0].key;
      KeyIndexUnique(t1, sps[1..][i].key, |t1|);
    }
  }

  /**
   * Merging `s` into `t` has nothing to write: every key of `s` is in `t`,
   * with the same non-object value, or, where `s` holds an object, with an
   * object that absorbs it or a non-empty string the merge cannot descend into.
   */
  predicate Absorbs(t: Value, s: Value)
    decreases s
  {
    s.Obj? ==> t.Obj? && forall i :: 0 <= i < |s.props| ==>
      HasKey(t.props, s.props[i].key) &&
      if s.props[i].val.Obj? then
        (Get(t, s.props[i].key).Str? && Truthy(Get(t, s.props[i].key))) ||
        (Get(t, s.props[i].key).Obj? && Absorbs(Get(t, s.props[i].key), s.props[i].val))
      else Get(t, s.props[i].key) == s.props[i].val
  }

  /** Merging what is already there changes nothing, not even the key order. */
  lemma {:induction false} MergeAbsorbed(t: Value, s: Value)
    requires Absorbs(t, s)
    ensures MergeOne(t, s) == t
    decreases s, 1
  {
    if s.Obj? {
      MergePropsAbsorbed(t.props, s.props);
    }
  }

  lemma {:induction false} MergePropsAbsorbed(tps: seq<Prop>, sps: seq<Prop>)
    requires Absorbs(Obj(tps), Obj(sps))
    ensures MergeProps(tps, sps) == tps
    decreases sps, 0
  {
    if sps != [] {
      var k := sps[0].key;
      var sv := sps[0].val;
      var c := Get(Obj(tps), k);
      if sv.Obj? && c.Obj? {
        MergeAbsorbed(c, sv);
      }
      PutSame(tps, k);
      assert MergeKey(tps, k, sv) == tps;
      assert Absorbs(Obj(tps), Obj(sps[1..])) by {
        assert forall i :: 0 <= i < |sps[1..]| ==> sps[1..][i] == sps[i + 1];
      }
      MergePropsAbsorbed(tps, sps[1..]);
    }
  }

  /** A non-empty string of `v` stands strictly above the path `r`, below the root. */
  ghost predicate Shadowed(v: Value, r: seq<string>)
  {
    exists q :: q < r && q != [] && !NoTruthyLeaf(v, q)
  }

  /** Below a key of `v` that holds no non-empty string, a shadowing string is one of that key's value. */
  lemma ShadowedCons(v: Value, k: string, r: seq<string>)
    requires NoTruthyLeaf(v, [k]) && Shadowed(v, [k] + r)
    ensures Shadowed(Get(v, k), r)
  {
    var q :| q < [k] + r && q != [] && !NoTruthyLeaf(v, q);
    assert q[0] == ([k] + r)[0] == k;
    var q' := q[1..];
    assert q == [k] + q';
    assert q != [k];
    assert q' < r by {
      assert q' == r[..|q'|];
    }
    AtCons(v, k, q');
    assert !NoTruthyLeaf(Get(v, k), q');
  }

  /** Nothing stands strictly between the root and a top-level key. */
  lemma NotShadowedTop(v: Value, k: string)
    ensures !Shadowed(v, [k])
  {
  }

  /**
   * The path-level reading of `Absorbs`: every leaf of `s` is in `t`, and
   * every branch of `s` is a branch of `t` or a non-empty string of `t`,
   * except where a non-empty string of `t` stands above it.
   */
  lemma {:induction false} AbsorbsAt(t: Value, s: Value)
    requires JsonTree(s) && s.Obj?
    requires forall r :: At(s, r).Str? ==> At(t, r) == At(s, r) || Shadowed(t, r)
    requires forall r :: At(s, r).Obj? ==> At(t, r).Obj? || (r != [] && !NoTruthyLeaf(t, r)) || Shadowed(t, r)
    ensures Absorbs(t, s)
    decreases s
  {
    assert At(t, []).Obj? by {
      assert At(s, []).Obj?;
      assert !Shadowed(t, []);
    }
    forall i | 0 <= i < |s.props|
      ensures HasKey(t.props, s.props[i].key)
      ensures if s.props[i].val.Obj? then
                (Get(t, s.props[i].key).Str? && Truthy(Get(t, s.props[i].key))) ||
                (Get(t, s.props[i].key).Obj? && Absorbs(Get(t, s.props[i].key), s.props[i].val))
              else Get(t, s.props[i].key) == s.props[i].val
    {
      AbsorbsKey(t, s, i);
    }
  }

  /** One key of `AbsorbsAt`. */
  lemma {:induction false} AbsorbsKey(t: Value, s: Value, i: nat)
    requires JsonTree(s) && s.Obj? && t.Obj? && i < |s.props|
    requires forall r :: At(s, r).Str? ==> At(t, r) == At(s, r) || Shadowed(t, r)
    requires forall r :: At(s, r).Obj? ==> At(t, r).Obj? || (r != [] && !NoTruthyLeaf(t, r)) || Shadowed(t, r)
    ensures HasKey(t.props, s.props[i].key)
    ensures if s.props[i].val.Obj? then
              (Get(t, s.props[i].key).Str? && Truthy(Get(t, s.props[i].key))) ||
              (Get(t, s.props[i].key).Obj? && Absorbs(Get(t, s.props[i].key), s.props[i].val))
            else Get(t, s.props[i].key) == s.props[i].val
    decreases s, 0
  {
    var k := s.props[i].key;
    var sv := s.props[i].val;
    KeyIndexDistinct(s.props, i);
    assert Get(s, k) == sv;
    AtCons(s, k, []);
    AtCons(t, k, []);
    assert [k] + [] == [k];
    NotShadowedTop(t, k);
    var c := Get(t, k);
    if sv.Obj? && !(c.Str? && Truthy(c)) {
      assert c.Obj?;
      forall r | At(sv, r).Str? ensures At(c, r) == At(sv, r) || Shadowed(c, r) {
        AtCons(s, k, r);
        AtCons(t, k, r);
        if Shadowed(t, [k] + r) {
          ShadowedCons(t, k, r);
        }
      }
      forall r | At(sv, r).Obj? ensures At(c, r).Obj? || (r != [] && !NoTruthyLeaf(c, r)) || Shadowed(c, r) {
        AtCons(s, k, r);
        AtCons(t, k, r);
        if Shadowed(t, [k] + r) {
          ShadowedCons(t, k, r);
        }
      }
      AbsorbsAt(c, sv);
    }
  }

  lemma PrefixCons(k: string, q: seq<string>, rest: seq<string>)
    ensures q <= rest ==> [k] + q <= [k] + rest
    ensures q < rest ==> [k] + q < [k] + rest
  {
    if q <= rest {
      assert [k] + q == ([k] + rest)[..|q| + 1];
    }
  }

  /** No non-empty string stands at the path `q`. */
  predicate NoTruthyLeaf(v: Value, q: seq<string>)
  {
    !(At(v, q).Str? && At(v, q).s != "")
  }

  /**
   * A leaf of the source lands in the result, provided no non-empty string
   * of the target stands on its way.
   */
  lemma {:induction false} MergeAtSource(t: Value, s: Value, r: seq<string>)
    requires JsonTree(t) && JsonTree(s) && t.Obj? && s.Obj? && At(s, r).Str?
    requires forall q :: q < r && q != [] ==> NoTruthyLeaf(t, q)
    ensures At(MergeOne(t, s), r) == At(s, r)
    decreases |r|
  {
    var k := r[0];
    var rest := r[1..];
    assert r == [k] + rest;
    var m := MergeOne(t, s);
    AtCons(m, k, rest);
    AtCons(s, k, rest);
    AtCons(t, k, []);
    AtUndefined(rest);
    var sv := Get(s, k);
    assert HasKey(s.props, k);
    MergeGet(t, s, k);
    JsonTreeGet(s, k);
    JsonTreeGet(t, k);
    var c := Get(t, k);
    if rest != [] {
      assert [k] < r;
      assert [k] + [] == [k];
      assert NoTruthyLeaf(t, [k]);
      if !Truthy(c) {
        JsonTreeWellFormed(sv);
        MergeCopy(sv);
      } else if c.Obj? {
        forall q | q < rest && q != [] ensures NoTruthyLeaf(c, q) {
          PrefixCons(k, q, rest);
          assert NoTruthyLeaf(t, [k] + q);
          AtCons(t, k, q);
        }
        MergeAtSource(c, sv, rest);
      }
    }
  }

  /**
   * A path the source does not reach, or one where the target holds a
   * non-empty string, keeps the target's value, provided the source has no
   * leaf on the way to it.
   */
  lemma {:induction false} MergeAtTarget(t: Value, s: Value, r: seq<string>)
    requires JsonTree(t) && JsonTree(s) && t.Obj? && s.Obj?
    requires At(s, r) == Undefined || (r != [] && !NoTruthyLeaf(t, r))
    requires forall q :: q <= r && q != [] ==> !At(s, q).Str?
    ensures At(MergeOne(t, s), r) == At(t, r)
    decreases |r|
  {
    var k := r[0];
    var rest := r[1..];
    assert r == [k] + rest;
    var m := MergeOne(t, s);
    AtCons(m, k, rest);
    AtCons(s, k, rest);
    AtCons(t, k, rest);
    AtCons(s, k, []);
    assert [k] + [] == [k] && [k] <= r;
    MergeGet(t, s, k);
    if HasKey(s.props, k) {
      var sv := Get(s, k);
      JsonTreeGet(s, k);
      JsonTreeGet(t, k);
      var c := Get(t, k);
      if !Truthy(c) {
        JsonTreeWellFormed(sv);
        MergeCopy(sv);
        AtUndefined(rest);
      } else if c.Obj? {
        forall q | q <= rest && q != [] ensures !At(sv, q).Str? {
          PrefixCons(k, q, rest);
          AtCons(s, k, q);
        }
        MergeAtTarget(c, sv, rest);
      }
    }
  }

  /** Every leaf of the result comes from the source or from the target. */
  lemma {:induction false} MergeLeaves(t: Value, s: Value, r: seq<string>)
    requires JsonTree(t) && JsonTree(s) && At(MergeOne(t, s), r).Str?
    ensures At(MergeOne(t, s), r) == At(s, r) || At(MergeOne(t, s), r) == At(t, r)
    decreases |r|
  {
    if t.Obj? && s.Obj? {
      var k := r[0];
      var rest := r[1..];
      assert r == [k] + rest;
      var m := MergeOne(t, s);
      AtCons(m, k, rest);
      AtCons(s, k, rest);
      AtCons(t, k, rest);
      MergeGet(t, s, k);
      if HasKey(s.props, k) {
        var sv := Get(s, k);
        JsonTreeGet(s, k);
        JsonTreeGet(t, k);
        var c := Get(t, k);
        if IsObject(sv) {
          if !Truthy(c) {
            JsonTreeWellFormed(sv);
        MergeCopy(sv);
          } else if c.Obj? {
            MergeLeaves(c, sv, rest);
          }
        }
      }
    }
  }

  /** A branch of the target stays a branch, provided the source has no leaf on the way to it. */
  lemma {:induction false} MergeKeepsBranch(t: Value, s: Value, r: seq<string>)
    requires JsonTree(t) && JsonTree(s) && At(t, r).Obj?
    requires forall q :: q <= r && q != [] ==> !At(s, q).Str?
    ensures At(MergeOne(t, s), r).Obj?
    decreases |r|
  {
    if s.Obj? && r != [] {
      var k := r[0];
      var rest := r[1..];
      assert r == [k] + rest;
      var m := MergeOne(t, s);
      AtCons(m, k, rest);
      AtCons(s, k, []);
      AtCons(t, k, rest);
      assert [k] + [] == [k] && [k] <= r;
      MergeGet(t, s, k);
      if HasKey(s.props, k) {
        var sv := Get(s, k);
        JsonTreeGet(s, k);
        JsonTreeGet(t, k);
        var c := Get(t, k);
        AtUndefined(rest);
        if rest != [] {
          forall q | q <= rest && q != [] ensures !At(sv, q).Str? {
            assert [k] + q <= r;
            AtCons(s, k, q);
          }
          MergeKeepsBranch(c, sv, rest);
        }
      }
    }
  }

  /** Merging trees gives a tree; merging tidy trees gives a tidy tree. */
  lemma {:induction false} MergeJson(t: Value, s: Value)
    requires JsonTree(t) && JsonTree(s)
    ensures JsonTree(MergeOne(t, s))
    ensures Tidy(t) && Tidy(s) ==> Tidy(MergeOne(t, s))
    decreases s, 1
  {
    if t.Obj? && s.Obj? {
      MergePropsJson(t.props, s.props);
    }
  }

  lemma {:induction false} MergePropsJson(tps: seq<Prop>, sps: seq<Prop>)
    requires JsonTree(Obj(tps)) && JsonTree(Obj(sps))
    ensures JsonTree(Obj(MergeProps(tps, sps)))
    ensures Tidy(Obj(tps)) && Tidy(Obj(sps)) ==> Tidy(Obj(MergeProps(tps, sps)))
    decreases sps, 0
  {
    if sps != [] {
      var k := sps[0].key;
      var sv := sps[0].val;
      assert ValidKey(k) && JsonTree(sv);
      var c := Get(Obj(tps), k);
      JsonTreeGet(Obj(tps), k);
      var t1 := MergeKey(tps, k, sv);
      assert JsonTree(Obj(t1)) && (Tidy(Obj(tps)) && Tidy(Obj(sps)) ==> Tidy(Obj(t1))) by {
        if IsObject(sv) {
          if !Truthy(c) {
            JsonTreeWellFormed(sv);
        MergeCopy(sv);
            PutPut(tps, k, Obj([]), sv);
            GetPut(tps, k, Obj([]), k);
            PutJson(tps, k, sv);
          } else if c.Obj? {
            MergeJson(c, sv);
            MergeKeepsKeys(c, sv);
            PutJson(tps, k, MergeOne(c, sv));
            if Tidy(Obj(tps)) {
              TidyGet(tps, k);
              assert MergeOne(c, sv) != Obj([]) by {
                assert |Keys(c.props)| <= |Keys(MergeOne(c, sv).props)|;
              }
            }
          }
        } else {
          PutJson(tps, k, sv);
        }
      }
      assert JsonTree(Obj(sps[1..])) && (Tidy(Obj(sps)) ==> Tidy(Obj(sps[1..]))) by {
        assert forall i :: 0 <= i < |sps[1..]| ==> sps[1..][i] == sps[i + 1];
      }
      MergePropsJson(t1, sps[1..]);
    }
  }

  lemma TidyGet(ps: seq<Prop>, k: string)
    requires Tidy(Obj(ps))
    ensures Get(Obj(ps), k) != Obj([]) && Tidy(Get(Obj(ps), k))
  {
  }

  // ----- _clearEmptyKeys -----

  /** What `_clearEmptyKeys` leaves at a key; `Undefined` means the key is deleted. */
  function Cleared(v: Value): Value
    decreases v, 1
  {
    if v.Obj? then (var c := ClearEmpty(v.props); if c == [] then Undefined else Obj(c)) else v
  }

  /**
   * `_clearEmptyKeys(obj)`: the properties in their original order, each
   * object cleared recursively, and `undefined` values and emptied objects
   * dropped.
   */
  function ClearEmpty(ps: seq<Prop>): seq<Prop>
    decreases ps, 0
  {
    if ps == [] then []
    else
      var c := Cleared(ps[0].val);
      (if c == Undefined then [] else [Prop(ps[0].key, c)]) + ClearEmpty(ps[1..])
  }

  /** `ps` after the keys in `done` have been visited by the loop of `_clearEmptyKeys`. */
  function ClearSome(ps: seq<Prop>, done: seq<string>): seq<Prop>
  {
    if ps == [] then []
    else
      var c := Cleared(ps[0].val);
      (if ps[0].key !in done then [ps[0]] else if c == Undefined then [] else [Prop(ps[0].key, c)]) + ClearSome(ps[1..], done)
  }

  /** The imperative original: visit the sorted keys, clearing objects in place and deleting what is empty or undefined. */
  method ClearEmptyKeys(obj: seq<Prop>) returns (r: seq<Prop>)
    requires WellFormed(Obj(obj))
    ensures r == ClearEmpty(obj)
    decreases obj, 1
  {
    var keys := SortStrings(Keys(obj));
    r := obj;
    ClearSomeNone(obj);
    var n := 0;
    while n < |keys|
      invariant 0 <= n <= |keys|
      invariant r == ClearSome(obj, keys[..n])
    {
      var key := keys[n];
      ClearSomeNext(obj, keys, n);
      var j := KeyIndex(obj, key);
      r := ClearKey(r, key, obj[j].val);
      n := n + 1;
    }
    ClearSomeDone(obj, keys);
  }

  /** The body of the loop of `_clearEmptyKeys` for a key holding `v`. */
  method ClearKey(cur: seq<Prop>, key: string, v: Value) returns (r: seq<Prop>)
    requires WellFormed(v)
    ensures r == ClearTurn(cur, key, v)
    decreases v, 0
  {
    if v.Obj? {
      var inner := ClearEmptyKeys(v.props);
      if inner == [] {
        r := Remove(cur, key);
      } else {
        r := Put(cur, key, Obj(inner));
      }
    } else if v == Undefined {
      r := Remove(cur, key);
    } else {
      r := cur;
    }
  }

  /** The turn at the `n`th sorted key: the key is present, and its turn extends the keys already visited. */
  lemma ClearSomeNext(obj: seq<Prop>, keys: seq<string>, n: nat)
    requires WellFormed(Obj(obj)) && keys == SortStrings(Keys(obj)) && n < |keys|
    ensures KeyIndex(obj, keys[n]) < |obj| && WellFormed(obj[KeyIndex(obj, keys[n])].val)
    ensures ClearSome(obj, keys[..n + 1]) == ClearTurn(ClearSome(obj, keys[..n]), keys[n], obj[KeyIndex(obj, keys[n])].val)
  {
    ClearKeysFacts(obj, keys);
    NextKey(keys, n);
    ClearSomeStep(obj, keys[..n], keys[n]);
  }

  /** Once every sorted key is visited, the result is the cleared object. */
  lemma ClearSomeDone(obj: seq<Prop>, keys: seq<string>)
    requires DistinctKeys(obj) && keys == SortStrings(Keys(obj))
    ensures ClearSome(obj, keys[..|keys|]) == ClearEmpty(obj)
  {
    ClearKeysFacts(obj, keys);
    assert keys[..|keys|] == keys;
    ClearSomeAll(obj, keys);
  }

  /** The loop of `_clearEmptyKeys` visits each key once: the next key is not among those done. */
  lemma NextKey(keys: seq<string>, n: nat)
    requires n < |keys| && Distinct(keys)
    ensures keys[..n + 1] == keys[..n] + [keys[n]]
    ensures keys[n] !in keys[..n]
  {
    assert forall m :: 0 <= m < n ==> keys[..n][m] == keys[m] != keys[n];
  }

  /** The sorted keys of an object are its keys, each once. */
  lemma ClearKeysFacts(obj: seq<Prop>, keys: seq<string>)
    requires DistinctKeys(obj) && keys == SortStrings(Keys(obj))
    ensures Distinct(keys)
    ensures forall n :: 0 <= n < |keys| ==> KeyIndex(obj, keys[n]) < |obj|
    ensures forall i :: 0 <= i < |obj| ==> obj[i].key in keys
  {
    assert Distinct(Keys(obj));
    DistinctMultiset(Keys(obj), keys);
    forall n | 0 <= n < |keys| ensures KeyIndex(obj, keys[n]) < |obj| {
      assert keys[n] in multiset(keys);
      KeyIndexIn(obj, keys[n]);
    }
    forall i | 0 <= i < |obj| ensures obj[i].key in keys {
      assert obj[i].key in multiset(Keys(obj));
    }
  }

  lemma {:induction false} ClearSomeNone(ps: seq<Prop>)
    ensures ClearSome(ps, []) == ps
  {
    if ps != [] {
      ClearSomeNone(ps[1..]);
      assert ps == [ps[0]] + ps[1..];
    }
  }

  lemma {:induction false} ClearSomeAll(ps: seq<Prop>, done: seq<string>)
    requires forall i :: 0 <= i < |ps| ==> ps[i].key in done
    ensures ClearSome(ps, done) == ClearEmpty(ps)
  {
    if ps != [] {
      ClearSomeAll(ps[1..], done);
    }
  }

  lemma {:induction false} ClearSomeOther(ps: seq<Prop>, done: seq<string>, k: string)
    requires forall i :: 0 <= i < |ps| ==> ps[i].key != k
    ensures ClearSome(ps, done + [k]) == ClearSome(ps, done)
  {
    if ps != [] {
      ClearSomeOther(ps[1..], done, k);
    }
  }

  /** What one turn of the loop of `_clearEmptyKeys` does to `cur` at key `k`, whose value was `v`. */
  function ClearTurn(cur: seq<Prop>, k: string, v: Value): seq<Prop>
  {
    if v.Obj? then (if ClearEmpty(v.props) == [] then Remove(cur, k) else Put(cur, k, Obj(ClearEmpty(v.props))))
    else if v == Undefined then Remove(cur, k)
    else cur
  }

  /** One turn of the loop of `_clearEmptyKeys` on a key not yet visited. */
  lemma {:induction false} ClearSomeStep(ps: seq<Prop>, done: seq<string>, k: string)
    requires DistinctKeys(ps) && k !in done && HasKey(ps, k)
    ensures ClearSome(ps, done + [k]) == ClearTurn(ClearSome(ps, done), k, Get(Obj(ps), k))
  {
    var rest := ps[1..];
    assert ps == [ps[0]] + rest;
    assert forall i :: 0 <= i < |rest| ==> rest[i] == ps[i + 1];
    if ps[0].key == k {
      ClearSomeHere(ps, done, k);
    } else {
      ClearSomeStep(rest, done, k);
      ClearSomeLater(ps, done, k);
    }
  }

  /** The turn at the first property: it is replaced by its cleared value or dropped. */
  lemma ClearSomeHere(ps: seq<Prop>, done: seq<string>, k: string)
    requires ps != [] && ps[0].key == k && k !in done
    requires forall i :: 0 < i < |ps| ==> ps[i].key != k
    ensures ClearSome(ps, done + [k]) == ClearTurn(ClearSome(ps, done), k, Get(Obj(ps), k))
  {
    var restCur := ClearSome(ps[1..], done);
    ClearSomeHereUnfold(ps, done, k);
    assert Get(Obj(ps), k) == ps[0].val;
    FirstKeyTurn(ps[0], restCur, k);
  }

  /** `ClearSome` before and after the first key is visited. */
  lemma ClearSomeHereUnfold(ps: seq<Prop>, done: seq<string>, k: string)
    requires ps != [] && ps[0].key == k && k !in done
    requires forall i :: 0 < i < |ps| ==> ps[i].key != k
    ensures ClearSome(ps, done) == [ps[0]] + ClearSome(ps[1..], done)
    ensures ClearSome(ps, done + [k]) ==
      (if Cleared(ps[0].val) == Undefined then [] else [Prop(k, Cleared(ps[0].val))]) + ClearSome(ps[1..], done)
  {
    var rest := ps[1..];
    assert forall i :: 0 <= i < |rest| ==> rest[i].key != k by {
      assert forall i :: 0 <= i < |rest| ==> rest[i] == ps[i + 1];
    }
    ClearSomeOther(rest, done, k);
  }

  /** A turn at the key of the first property replaces or drops that property. */
  lemma FirstKeyTurn(p: Prop, rest: seq<Prop>, k: string)
    requires p.key == k
    ensures ClearTurn([p] + rest, k, p.val) == (if Cleared(p.val) == Undefined then [] else [Prop(k, Cleared(p.val))]) + rest
  {
    FirstKeyRemove(p, rest, k);
    var v := p.val;
    if v.Obj? && ClearEmpty(v.props) != [] {
      FirstKeyPut(p, rest, k, Obj(ClearEmpty(v.props)));
    }
  }

  /** Overwriting the first key replaces the head only. */
  lemma FirstKeyPut(p: Prop, rest: seq<Prop>, k: string, x: Value)
    requires p.key == k
    ensures Put([p] + rest, k, x) == [Prop(k, x)] + rest
  {
    var cur := [p] + rest;
    assert KeyIndex(cur, k) == 0;
    assert cur[0 := Prop(k, x)] == [Prop(k, x)] + rest;
  }

  /** The turn at a later property leaves the first one as it is. */
  lemma ClearSomeLater(ps: seq<Prop>, done: seq<string>, k: string)
    requires ps != [] && ps[0].key != k
    requires ClearSome(ps[1..], done + [k]) == ClearTurn(ClearSome(ps[1..], done), k, Get(Obj(ps[1..]), k))
    ensures ClearSome(ps, done + [k]) == ClearTurn(ClearSome(ps, done), k, Get(Obj(ps), k))
  {
    var rest := ps[1..];
    var restCur := ClearSome(rest, done);
    var head := if ps[0].key !in done then [ps[0]] else if Cleared(ps[0].val) == Undefined then [] else [Prop(ps[0].key, Cleared(ps[0].val))];
    assert ClearSome(ps, done) == head + restCur;
    assert ClearSome(ps, done + [k]) == head + ClearSome(rest, done + [k]);
    GetCons(ps[0], rest, k);
    assert ps == [ps[0]] + rest;
    TurnLocal(head, restCur, k, Get(Obj(rest), k));
  }

  /** A turn at a key that a one-property prefix does not hold only edits the suffix. */
  lemma TurnLocal(head: seq<Prop>, tail: seq<Prop>, k: string, v: Value)
    requires |head| <= 1 && forall i :: 0 <= i < |head| ==> head[i].key != k
    ensures ClearTurn(head + tail, k, v) == head + ClearTurn(tail, k, v)
  {
    LocalRemove(head, tail, k);
    if v.Obj? {
      LocalPut(head, tail, k, Obj(ClearEmpty(v.props)));
    }
  }

  /** Deleting a key that a one-property prefix does not hold only edits the suffix. */
  lemma LocalRemove(head: seq<Prop>, tail: seq<Prop>, k: string)
    requires |head| <= 1 && forall i :: 0 <= i < |head| ==> head[i].key != k
    ensures Remove(head + tail, k) == head + Remove(tail, k)
  {
    if head == [] {
      assert head + tail == tail;
    } else {
      assert head == [head[0]];
      RemoveCons(head[0], tail, k);
    }
  }

  /** Putting a key that a one-property prefix does not hold only edits the suffix. */
  lemma LocalPut(head: seq<Prop>, tail: seq<Prop>, k: string, x: Value)
    requires |head| <= 1 && forall i :: 0 <= i < |head| ==> head[i].key != k
    ensures Put(head + tail, k, x) == head + Put(tail, k, x)
  {
    if head == [] {
      assert head + tail == tail;
    } else {
      assert head == [head[0]];
      PutCons(head[0], tail, k, x);
    }
  }

  lemma PutCons(h: Prop, tail: seq<Prop>, k: string, x: Value)
    requires h.key != k
    ensures Put([h] + tail, k, x) == [h] + Put(tail, k, x)
  {
    KeyIndexCons(h, tail, k);
    var i := KeyIndex(tail, k);
    if i < |tail| {
      assert ([h] + tail)[i + 1 := Prop(k, x)] == [h] + tail[i := Prop(k, x)];
    }
  }

  /** Looking a key up after clearing is clearing what the key held. */
  lemma {:induction false} ClearEmptyGet(ps: seq<Prop>, k: string)
    requires DistinctKeys(ps)
    ensures Get(Obj(ClearEmpty(ps)), k) == Cleared(Get(Obj(ps), k))
  {
    if ps != [] {
      var rest := ps[1..];
      assert DistinctKeys(rest) by {
        assert forall i :: 0 <= i < |rest| ==> rest[i] == ps[i + 1];
      }
      ClearEmptyGet(rest, k);
      assert ps == [ps[0]] + rest;
      GetCons(ps[0], rest, k);
      var c := Cleared(ps[0].val);
      if c != Undefined {
        assert ClearEmpty(ps) == [Prop(ps[0].key, c)] + ClearEmpty(rest);
        GetCons(Prop(ps[0].key, c), ClearEmpty(rest), k);
      } else {
        assert ClearEmpty(ps) == ClearEmpty(rest);
      }
      if ps[0].key == k {
        assert !HasKey(rest, k) by {
          assert forall i :: 0 <= i < |rest| ==> rest[i] == ps[i + 1];
        }
        assert Get(Obj(rest), k) == Undefined;
      }
    }
  }

  /** After clearing, no `undefined` value and no empty object is left anywhere below the root. */
  lemma {:induction false} ClearEmptyTidy(ps: seq<Prop>)
    ensures Tidy(Obj(ClearEmpty(ps)))
    decreases ps, 0
  {
    if ps != [] {
      ClearEmptyTidy(ps[1..]);
      ClearedTidy(ps[0].val);
    }
  }

  lemma {:induction false} ClearedTidy(v: Value)
    ensures Tidy(Cleared(v))
    decreases v, 1
  {
    if v.Obj? {
      ClearEmptyTidy(v.props);
    }
  }

  /** Clearing a tidy object changes nothing; so clearing twice is clearing once. */
  lemma {:induction false} ClearEmptyTidyIdentity(ps: seq<Prop>)
    requires Tidy(Obj(ps))
    ensures ClearEmpty(ps) == ps
    decreases ps, 0
  {
    if ps != [] {
      assert Tidy(Obj(ps[1..])) by {
        assert forall i :: 0 <= i < |ps[1..]| ==> ps[1..][i] == ps[i + 1];
      }
      ClearEmptyTidyIdentity(ps[1..]);
      var v := ps[0].val;
      if v.Obj? {
        ClearEmptyTidyIdentity(v.props);
      }
      assert ps == [Prop(ps[0].key, v)] + ps[1..];
    }
  }

  lemma ClearEmptyIdempotent(ps: seq<Prop>)
    ensures ClearEmpty(ClearEmpty(ps)) == ClearEmpty(ps)
  {
    ClearEmptyTidy(ps);
    ClearEmptyTidyIdentity(ClearEmpty(ps));
  }

  lemma ClearEmptyNoKey(ps: seq<Prop>, k: string)
    requires forall i :: 0 <= i < |ps| ==> ps[i].key != k
    ensures forall i :: 0 <= i < |ClearEmpty(ps)| ==> ClearEmpty(ps)[i].key != k
    decreases ps
  {
    if ps != [] {
      ClearEmptyNoKey(ps[1..], k);
    }
  }

  /** Clearing a tree that may hold `undefined` leaves yields a JSON tree. */
  lemma {:induction false} ClearEmptyJson(ps: seq<Prop>)
    requires Shaped(Obj(ps))
    ensures JsonTree(Obj(ClearEmpty(ps)))
    decreases ps, 0
  {
    if ps != [] {
      var rest := ps[1..];
      assert forall i :: 0 <= i < |rest| ==> rest[i] == ps[i + 1];
      ClearEmptyJson(rest);
      var c := Cleared(ps[0].val);
      if c != Undefined {
        ClearedJson(ps[0].val);
        ClearEmptyNoKey(rest, ps[0].key);
        var tail := ClearEmpty(rest);
        assert ClearEmpty(ps) == [Prop(ps[0].key, c)] + tail;
        assert forall i :: 0 < i < |ClearEmpty(ps)| ==> ClearEmpty(ps)[i] == tail[i - 1];
      }
    }
  }

  lemma {:induction false} ClearedJson(v: Value)
    requires Shaped(v) && Cleared(v) != Undefined
    ensures JsonTree(Cleared(v))
    decreases v, 1
  {
    if v.Obj? {
      ClearEmptyJson(v.props);
    }
  }

  lemma WellFormedGet(v: Value, k: string)
    requires WellFormed(v)
    ensures WellFormed(Get(v, k))
  {
  }

  /**
   * Clearing keeps every string leaf where it was, and creates none: a string
   * at a path after clearing was there before, and the other way round.
   */
  lemma {:induction false} ClearedAt(v: Value, r: seq<string>)
    requires WellFormed(v)
    ensures At(v, r).Str? ==> At(Cleared(v), r) == At(v, r)
    ensures At(Cleared(v), r).Str? ==> At(v, r) == At(Cleared(v), r)
    decreases |r|
  {
    if r != [] && v.Obj? {
      var k := r[0];
      var child := Get(v, k);
      WellFormedGet(v, k);
      ClearedAt(child, r[1..]);
      ClearEmptyGet(v.props, k);
      var c := ClearEmpty(v.props);
      if c == [] {
        AtUndefined(r);
        AtUndefined(r[1..]);
      }
    }
  }

  lemma ClearEmptyAt(ps: seq<Prop>, r: seq<string>)
    requires WellFormed(Obj(ps))
    ensures At(Obj(ps), r).Str? ==> At(Obj(ClearEmpty(ps)), r) == At(Obj(ps), r)
    ensures At(Obj(ClearEmpty(ps)), r).Str? ==> At(Obj(ps), r) == At(Obj(ClearEmpty(ps)), r)
  {
    if r != [] {
      var k := r[0];
      WellFormedGet(Obj(ps), k);
      ClearedAt(Get(Obj(ps), k), r[1..]);
      ClearEmptyGet(ps, k);
    }
  }

  // ----- _purgeOutput -----

  /**
   * `outObj.<path> = undefined`, the assignment `_purgeOutput` evaluates,
   * performed on the segments of the path.
   */
  function SetAt(v: Value, p: seq<string>, x: Value): (r: Value)
    requires p != []
    ensures v.Obj? ==> r.Obj?
    decreases |p|
  {
    if |p| == 1 then SetProp(v, p[0], x) else SetProp(v, p[0], SetAt(Get(v, p[0]), p[1..], x))
  }

  /** Where the path already runs through objects, the assignment is `buildObject`. */
  lemma {:induction false} SetAtIsBuildAt(v: Value, p: seq<string>, x: Value)
    requires p != [] && Branches(v, p)
    ensures SetAt(v, p, x) == BuildAt(v, p, x)
    decreases |p|
  {
    if |p| > 1 {
      BranchesTail(v, p);
      SetAtIsBuildAt(Get(v, p[0]), p[1..], x);
    }
  }

  lemma {:induction false} SetAtWellFormed(v: Value, p: seq<string>, x: Value)
    requires p != [] && WellFormed(v) && WellFormed(x)
    ensures WellFormed(SetAt(v, p, x))
    decreases |p|
  {
    if v.Obj? {
      var y := x;
      if |p| > 1 {
        WellFormedGet(v, p[0]);
        SetAtWellFormed(Get(v, p[0]), p[1..], x);
        y := SetAt(Get(v, p[0]), p[1..], x);
      }
      DistinctKeysPut(v.props, p[0], y);
    }
  }

  lemma {:induction false} SetAtShaped(v: Value, p: seq<string>, x: Value)
    requires ValidPath(p) && Shaped(v) && Shaped(x)
    ensures Shaped(SetAt(v, p, x))
    decreases |p|
  {
    if v.Obj? {
      var y := x;
      if |p| > 1 {
        assert Shaped(Get(v, p[0])) by {
          var i := KeyIndex(v.props, p[0]);
        }
        assert ValidPath(p[1..]) by { assert forall m :: 0 <= m < |p| - 1 ==> p[1..][m] == p[m + 1]; }
        SetAtShaped(Get(v, p[0]), p[1..], x);
        y := SetAt(Get(v, p[0]), p[1..], x);
      }
      PutShaped(v.props, p[0], y);
    }
  }

  /** The loop of `_purgeOutput` over the leaf paths `props` still to visit. */
  function PurgeFold(v: Value, props: seq<string>, input: Value): (r: Value)
    ensures v.Obj? ==> r.Obj?
    decreases |props|
  {
    if props == [] then v else PurgeFold(PurgeTurn(v, props[0], input), props[1..], input)
  }

  /** `_purgeOutput(outObj, input)`: unset every leaf the input does not define, then clear. */
  function Purge(outObj: seq<Prop>, input: Value): seq<Prop>
  {
    ClearEmpty(PurgeFold(Obj(outObj), Flatten(outObj), input).props)
  }

  /** The body of the loop of `_purgeOutput` for one leaf path: `outObj.<prop> = undefined` when the input lacks it. */
  method PurgeProp(v: Value, prop: string, input: Value) returns (r: Value)
    requires v.Obj? && WellFormed(v)
    ensures r == PurgeTurn(v, prop, input) && r.Obj? && WellFormed(r)
  {
    if FindInnerValue(input, prop) == Undefined {
      SetAtWellFormed(v, Split(prop), Undefined);
      r := SetAt(v, Split(prop), Undefined);
    } else {
      r := v;
    }
  }

  /** The paths from the `i`th on: the `i`th turn, then the rest. */
  lemma PurgeFoldNext(v: Value, props: seq<string>, i: nat, input: Value)
    requires i < |props|
    ensures PurgeFold(v, props[i..], input) == PurgeFold(PurgeTurn(v, props[i], input), props[i + 1..], input)
  {
    assert props[i..][0] == props[i] && props[i..][1..] == props[i + 1..];
  }

  /** The imperative original: walk the leaf paths, unsetting in place, then clear. */
  method PurgeOutput(outObj: seq<Prop>, input: Value) returns (r: seq<Prop>)
    requires WellFormed(Obj(outObj))
    ensures r == Purge(outObj, input)
  {
    var outProps := GetObjectNestedProperties(outObj);
    var v := Obj(outObj);
    var i := 0;
    while i < |outProps|
      invariant 0 <= i <= |outProps|
      invariant v.Obj? && WellFormed(v)
      invariant PurgeFold(v, outProps[i..], input) == PurgeFold(Obj(outObj), outProps, input)
    {
      PurgeFoldNext(v, outProps, i, input);
      v := PurgeProp(v, outProps[i], input);
      i := i + 1;
    }
    r := ClearEmptyKeys(v.props);
  }

  /**
   * How a purge in progress stands to the original tree `orig`: every string
   * it holds is the original's, every original string is kept or was unset
   * because the input lacks it, and every original object is still one.
   */
  ghost predicate PurgeInv(orig: Value, v: Value, input: Value)
  {
    v.Obj? &&
    (forall r :: At(v, r).Str? ==> At(orig, r) == At(v, r)) &&
    (forall r :: At(orig, r).Str? ==> At(v, r) == At(orig, r) || (At(v, r) == Undefined && At(input, r) == Undefined)) &&
    (forall r :: At(orig, r).Obj? ==> At(v, r).Obj?)
  }

  /** One unset of a leaf the input lacks keeps the invariant, and never restores an unset leaf. */
  lemma PurgeStep(orig: Value, v: Value, p: seq<string>, input: Value)
    requires PurgeInv(orig, v, input) && p != [] && At(orig, p).Str? && At(input, p) == Undefined
    ensures PurgeInv(orig, SetAt(v, p, Undefined), input)
    ensures At(SetAt(v, p, Undefined), p) == Undefined
    ensures forall r :: At(v, r) == Undefined ==> At(SetAt(v, p, Undefined), r) == Undefined
  {
    LeafPath(orig, p);
    assert Branches(v, p);
    var n := SetAt(v, p, Undefined);
    SetAtIsBuildAt(v, p, Undefined);
    BranchesClear(v, p);
    BuildAtShape(v, p, Undefined);
    forall r ensures r == p || r < p || p < r || Diverge(p, r) {
    }
    forall r | At(n, r).Str? ensures At(orig, r) == At(n, r) {
      assert Diverge(p, r);
    }
    forall r | At(orig, r).Str? ensures At(n, r) == At(orig, r) || (At(n, r) == Undefined && At(input, r) == Undefined) {
      assert r == p || Diverge(p, r);
    }
    forall r | At(orig, r).Obj? ensures At(n, r).Obj? {
      assert r < p || Diverge(p, r);
    }
    forall r | At(v, r) == Undefined ensures At(n, r) == Undefined {
      assert r == p || p < r || Diverge(p, r);
    }
  }

  lemma PurgeFoldAt(orig: Value, v: Value, xs: seq<string>, input: Value)
    requires forall x :: x in xs ==> At(orig, Split(x)).Str?
    requires PurgeInv(orig, v, input)
    ensures PurgeInv(orig, PurgeFold(v, xs, input), input)
    ensures forall r :: At(v, r) == Undefined ==> At(PurgeFold(v, xs, input), r) == Undefined
    ensures forall x :: x in xs && At(input, Split(x)) == Undefined ==> At(PurgeFold(v, xs, input), Split(x)) == Undefined
  {
    PurgeFoldInv(orig, v, xs, input);
    forall r | At(v, r) == Undefined ensures At(PurgeFold(v, xs, input), r) == Undefined {
      PurgeFoldUnset(orig, v, xs, input, r);
    }
    forall x | x in xs && At(input, Split(x)) == Undefined ensures At(PurgeFold(v, xs, input), Split(x)) == Undefined {
      PurgeFoldClears(orig, v, xs, input, x);
    }
  }

  /** One turn of the loop of `_purgeOutput`: a leaf path the input lacks is unset. */
  function PurgeTurn(v: Value, x: string, input: Value): Value
  {
    if FindInnerValue(input, x) == Undefined then SetAt(v, Split(x), Undefined) else v
  }

  /** The turn at a leaf of the original keeps the invariant, leaves unset paths unset, and unsets the leaf when the input lacks it. */
  lemma PurgeTurnFacts(orig: Value, v: Value, x: string, input: Value)
    requires PurgeInv(orig, v, input) && At(orig, Split(x)).Str?
    ensures PurgeInv(orig, PurgeTurn(v, x, input), input)
    ensures forall r :: At(v, r) == Undefined ==> At(PurgeTurn(v, x, input), r) == Undefined
    ensures At(input, Split(x)) == Undefined ==> At(PurgeTurn(v, x, input), Split(x)) == Undefined
  {
    var p := Split(x);
    JoinSplit(x);
    FindInnerValueAt(input, p);
    if At(input, p) == Undefined {
      PurgeStep(orig, v, p, input);
    }
  }

  /** The leaf paths still to visit after the first, all leaves of the original. */
  lemma LeavesTail(orig: Value, xs: seq<string>, y: string)
    requires forall x :: x in xs ==> At(orig, Split(x)).Str?
    requires xs != []
    ensures y in xs && y != xs[0] ==> y in xs[1..]
    ensures forall x :: x in xs[1..] ==> At(orig, Split(x)).Str?
  {
    assert xs == [xs[0]] + xs[1..];
  }

  lemma {:induction false} PurgeFoldInv(orig: Value, v: Value, xs: seq<string>, input: Value)
    requires forall x :: x in xs ==> At(orig, Split(x)).Str?
    requires PurgeInv(orig, v, input)
    ensures PurgeInv(orig, PurgeFold(v, xs, input), input)
    decreases |xs|
  {
    if xs != [] {
      PurgeTurnFacts(orig, v, xs[0], input);
      LeavesTail(orig, xs, xs[0]);
      PurgeFoldInv(orig, PurgeTurn(v, xs[0], input), xs[1..], input);
    }
  }

  lemma {:induction false} PurgeFoldUnset(orig: Value, v: Value, xs: seq<string>, input: Value, r: seq<string>)
    requires forall x :: x in xs ==> At(orig, Split(x)).Str?
    requires PurgeInv(orig, v, input) && At(v, r) == Undefined
    ensures At(PurgeFold(v, xs, input), r) == Undefined
    decreases |xs|
  {
    if xs != [] {
      PurgeTurnFacts(orig, v, xs[0], input);
      LeavesTail(orig, xs, xs[0]);
      PurgeFoldUnset(orig, PurgeTurn(v, xs[0], input), xs[1..], input, r);
    }
  }

  lemma {:induction false} PurgeFoldClears(orig: Value, v: Value, xs: seq<string>, input: Value, y: string)
    requires forall x :: x in xs ==> At(orig, Split(x)).Str?
    requires PurgeInv(orig, v, input) && y in xs && At(input, Split(y)) == Undefined
    ensures At(PurgeFold(v, xs, input), Split(y)) == Undefined
    decreases |xs|
  {
    var next := PurgeTurn(v, xs[0], input);
    PurgeTurnFacts(orig, v, xs[0], input);
    LeavesTail(orig, xs, y);
    if y == xs[0] {
      PurgeFoldUnset(orig, next, xs[1..], input, Split(y));
    } else {
      PurgeFoldClears(orig, next, xs[1..], input, y);
    }
  }

  lemma PurgeFoldShaped(v: Value, xs: seq<string>, input: Value)
    requires Shaped(v) && forall x :: x in xs ==> ValidPath(Split(x))
    ensures Shaped(PurgeFold(v, xs, input))
    decreases |xs|
  {
    if xs != [] {
      if FindInnerValue(input, xs[0]) == Undefined {
        SetAtShaped(v, Split(xs[0]), Undefined);
      }
      PurgeFoldShaped(PurgeTurn(v, xs[0], input), xs[1..], input);
    }
  }

  /** What the whole loop of `_purgeOutput` leaves, before clearing. */
  lemma PurgeAll(outObj: seq<Prop>, input: Value)
    requires JsonTree(Obj(outObj))
    ensures var w := PurgeFold(Obj(outObj), Flatten(outObj), input);
      PurgeInv(Obj(outObj), w, input) && Shaped(w) && WellFormed(w) &&
      forall r :: At(Obj(outObj), r).Str? && At(input, r) == Undefined ==> At(w, r) == Undefined
  {
    var orig := Obj(outObj);
    var xs := Flatten(outObj);
    var w := PurgeFold(orig, xs, input);
    forall x | x in xs ensures At(orig, Split(x)).Str? && ValidPath(Split(x)) {
      FlattenSound(outObj, x);
    }
    PurgeFoldAt(orig, orig, xs, input);
    JsonTreeShaped(orig);
    PurgeFoldShaped(orig, xs, input);
    ShapedWellFormed(w);
    forall r | At(orig, r).Str? && At(input, r) == Undefined ensures At(w, r) == Undefined {
      FlattenComplete(outObj, r);
      JsonTreePathValid(orig, r);
      SplitJoin(r);
    }
  }

  /** A leaf that survives the purge is a leaf of the input, with its original value. */
  lemma PurgeSound(outObj: seq<Prop>, input: Value, r: seq<string>)
    requires JsonTree(Obj(outObj)) && At(Obj(Purge(outObj, input)), r).Str?
    ensures At(Obj(outObj), r) == At(Obj(Purge(outObj, input)), r)
    ensures At(input, r) != Undefined
  {
    PurgeAll(outObj, input);
    ClearEmptyAt(PurgeFold(Obj(outObj), Flatten(outObj), input).props, r);
  }

  /** A leaf whose path the input defines is never removed. */
  lemma PurgeKeeps(outObj: seq<Prop>, input: Value, r: seq<string>)
    requires JsonTree(Obj(outObj)) && At(Obj(outObj), r).Str? && At(input, r) != Undefined
    ensures At(Obj(Purge(outObj, input)), r) == At(Obj(outObj), r)
  {
    PurgeAll(outObj, input);
    ClearEmptyAt(PurgeFold(Obj(outObj), Flatten(outObj), input).props, r);
  }

  /** The purged tree is a JSON tree with no `undefined` leaf and no empty branch. */
  lemma PurgeJson(outObj: seq<Prop>, input: Value)
    requires JsonTree(Obj(outObj))
    ensures JsonTree(Obj(Purge(outObj, input))) && Tidy(Obj(Purge(outObj, input)))
  {
    PurgeAll(outObj, input);
    var w := PurgeFold(Obj(outObj), Flatten(outObj), input);
    ClearEmptyJson(w.props);
    ClearEmptyTidy(w.props);
  }

  lemma {:induction false} PurgeFoldNoop(v: Value, xs: seq<string>, input: Value)
    requires forall x :: x in xs ==> FindInnerValue(input, x) != Undefined
    ensures PurgeFold(v, xs, input) == v
    decreases |xs|
  {
    if xs != [] {
      PurgeFoldNoop(v, xs[1..], input);
    }
  }

  /** A tidy tree whose every leaf the input defines is left exactly as it is. */
  lemma PurgeIdentity(outObj: seq<Prop>, input: Value)
    requires JsonTree(Obj(outObj)) && Tidy(Obj(outObj))
    requires forall r :: At(Obj(outObj), r).Str? ==> At(input, r) != Undefined
    ensures Purge(outObj, input) == outObj
  {
    forall x | x in Flatten(outObj) ensures FindInnerValue(input, x) != Undefined {
      FlattenSound(outObj, x);
      JoinSplit(x);
      FindInnerValueAt(input, Split(x));
    }
    PurgeFoldNoop(Obj(outObj), Flatten(outObj), input);
    ClearEmptyTidyIdentity(outObj);
  }

  // ----- sortObject -----

  /**
   * `sortObject(obj)`: a fresh object holding the same values under the
   * top-level keys taken in sorted order; nested objects are shared, not sorted.
   */
  function SortObject(ps: seq<Prop>): seq<Prop>
  {
    SortReduce(ps, SortStrings(Keys(ps)), [])
  }

  /** The `reduce` of `sortObject`: each step copies the accumulator into `{}` and adds one key. */
  function SortReduce(ps: seq<Prop>, ks: seq<string>, acc: seq<Prop>): seq<Prop>
    decreases |ks|
  {
    if ks == [] then acc
    else SortReduce(ps, ks[1..], Assign(Assign([], acc), [Prop(ks[0], Get(Obj(ps), ks[0]))]))
  }

  /** The object holding, in the order of `ks`, each key of `ks` with its value in `ps`. */
  function Picks(ps: seq<Prop>, ks: seq<string>): seq<Prop>
  {
    seq(|ks|, i requires 0 <= i < |ks| => Prop(ks[i], Get(Obj(ps), ks[i])))
  }

  lemma {:induction false} SortReduceIsPicks(ps: seq<Prop>, ks: seq<string>, acc: seq<Prop>)
    requires DistinctKeys(acc) && Distinct(ks)
    requires forall i, j :: 0 <= i < |acc| && 0 <= j < |ks| ==> acc[i].key != ks[j]
    ensures SortReduce(ps, ks, acc) == acc + Picks(ps, ks)
    decreases |ks|
  {
    if ks == [] {
      assert Picks(ps, ks) == [];
    } else {
      var next := acc + [Prop(ks[0], Get(Obj(ps), ks[0]))];
      SortReducePrep(ps, ks, acc);
      SortReduceIsPicks(ps, ks[1..], next);
    }
  }

  /** What one step of the `reduce` hands to the next: the same picks, one key further on. */
  lemma SortReducePrep(ps: seq<Prop>, ks: seq<string>, acc: seq<Prop>)
    requires DistinctKeys(acc) && Distinct(ks) && ks != []
    requires forall i, j :: 0 <= i < |acc| && 0 <= j < |ks| ==> acc[i].key != ks[j]
    ensures var next := acc + [Prop(ks[0], Get(Obj(ps), ks[0]))];
      && SortReduce(ps, ks, acc) == SortReduce(ps, ks[1..], next)
      && DistinctKeys(next) && Distinct(ks[1..])
      && (forall i, j :: 0 <= i < |next| && 0 <= j < |ks[1..]| ==> next[i].key != ks[1..][j])
      && acc + Picks(ps, ks) == next + Picks(ps, ks[1..])
  {
    var p := Prop(ks[0], Get(Obj(ps), ks[0]));
    SortReduceTurn(acc, p);
    AppendFreshDistinct(acc, p);
    DisjointNext(acc, ks, p);
    PicksCons(ps, ks);
    assert acc + ([p] + Picks(ps, ks[1..])) == (acc + [p]) + Picks(ps, ks[1..]);
  }

  /** One step of the `reduce` on a key the accumulator lacks appends it. */
  lemma SortReduceTurn(acc: seq<Prop>, p: Prop)
    requires DistinctKeys(acc) && forall i :: 0 <= i < |acc| ==> acc[i].key != p.key
    ensures Assign(Assign([], acc), [p]) == acc + [p]
  {
    AssignEmpty(acc);
    KeyIndexUnique(acc, p.key, |acc|);
    assert Assign(acc, [p]) == Put(acc, p.key, p.val);
  }

  lemma AppendFreshDistinct(acc: seq<Prop>, p: Prop)
    requires DistinctKeys(acc) && forall i :: 0 <= i < |acc| ==> acc[i].key != p.key
    ensures DistinctKeys(acc + [p])
  {
  }

  lemma DisjointNext(acc: seq<Prop>, ks: seq<string>, p: Prop)
    requires Distinct(ks) && ks != [] && p.key == ks[0]
    requires forall i, j :: 0 <= i < |acc| && 0 <= j < |ks| ==> acc[i].key != ks[j]
    ensures Distinct(ks[1..])
    ensures forall i, j :: 0 <= i < |acc + [p]| && 0 <= j < |ks[1..]| ==> (acc + [p])[i].key != ks[1..][j]
  {
    forall i, j | 0 <= i < |acc + [p]| && 0 <= j < |ks[1..]| ensures (acc + [p])[i].key != ks[1..][j] {
      assert ks[1..][j] == ks[j + 1];
      if i < |acc| {
        assert (acc + [p])[i] == acc[i];
      }
    }
  }

  lemma PicksCons(ps: seq<Prop>, ks: seq<string>)
    requires ks != []
    ensures Picks(ps, ks) == [Prop(ks[0], Get(Obj(ps), ks[0]))] + Picks(ps, ks[1..])
  {
  }

  /** Looking a key up in `Picks`: the picked value when listed, `undefined` otherwise. */
  lemma PicksGet(ps: seq<Prop>, ks: seq<string>, k: string)
    requires Distinct(ks)
    ensures Get(Obj(Picks(ps, ks)), k) == if k in ks then Get(Obj(ps), k) else Undefined
  {
    var r := Picks(ps, ks);
    if k in ks {
      var j :| 0 <= j < |ks| && ks[j] == k;
      KeyIndexUnique(r, k, j);
    } else {
      KeyIndexUnique(r, k, |r|);
    }
  }

  /** Every picked property of a listed key is a property of the object. */
  lemma PicksEntry(ps: seq<Prop>, ks: seq<string>, i: nat)
    requires DistinctKeys(ps) && i < |ks| && ks[i] in Keys(ps)
    ensures exists j :: 0 <= j < |ps| && ps[j] == Picks(ps, ks)[i]
  {
    var j :| 0 <= j < |ps| && Keys(ps)[j] == ks[i];
    KeyIndexDistinct(ps, j);
    assert ps[j] == Picks(ps, ks)[i];
  }

  lemma SortObjectIsPicks(ps: seq<Prop>)
    requires DistinctKeys(ps)
    ensures Distinct(SortStrings(Keys(ps)))
    ensures SortObject(ps) == Picks(ps, SortStrings(Keys(ps)))
  {
    var ks := SortStrings(Keys(ps));
    assert Distinct(Keys(ps));
    DistinctMultiset(Keys(ps), ks);
    SortReduceIsPicks(ps, ks, []);
    assert [] + Picks(ps, ks) == Picks(ps, ks);
  }

  /** The keys of the sorted object are the object's keys, each once, in ascending order. */
  lemma SortObjectKeys(ps: seq<Prop>)
    requires DistinctKeys(ps)
    ensures Keys(SortObject(ps)) == SortStrings(Keys(ps))
    ensures multiset(Keys(SortObject(ps))) == multiset(Keys(ps))
    ensures StrictlySorted(Keys(SortObject(ps))) && DistinctKeys(SortObject(ps))
  {
    SortObjectIsPicks(ps);
    SortedDistinctIsStrict(SortStrings(Keys(ps)));
  }

  /** Every key holds the same value after sorting, and absent keys stay absent. */
  lemma SortObjectGet(ps: seq<Prop>, k: string)
    requires DistinctKeys(ps)
    ensures Get(Obj(SortObject(ps)), k) == Get(Obj(ps), k)
  {
    var ks := SortStrings(Keys(ps));
    SortObjectIsPicks(ps);
    PicksGet(ps, ks, k);
    KeyIndexIn(ps, k);
    assert k in ks <==> k in multiset(Keys(ps));
  }

  /** Below the top level nothing moves: every nonempty path reaches the same value. */
  lemma SortObjectAt(ps: seq<Prop>, r: seq<string>)
    requires DistinctKeys(ps) && r != []
    ensures At(Obj(SortObject(ps)), r) == At(Obj(ps), r)
  {
    SortObjectGet(ps, r[0]);
  }

  /** Sorting an object whose keys are already in ascending order changes nothing. */
  lemma SortObjectSortedIdentity(ps: seq<Prop>)
    requires DistinctKeys(ps) && StrictlySorted(Keys(ps))
    ensures SortObject(ps) == ps
  {
    assert Sorted(Keys(ps));
    SortSortedIdentity(Keys(ps));
    SortObjectKeys(ps);
    SortObjectIsPicks(ps);
    forall k ensures Get(Obj(SortObject(ps)), k) == Get(Obj(ps), k) {
      SortObjectGet(ps, k);
    }
    PropsExt(SortObject(ps), ps);
  }

  /** Sorting keeps a JSON tree a JSON tree, and keeps it tidy. */
  lemma SortObjectJson(ps: seq<Prop>)
    requires JsonTree(Obj(ps))
    ensures JsonTree(Obj(SortObject(ps)))
    ensures Tidy(Obj(ps)) ==> Tidy(Obj(SortObject(ps)))
  {
    var ks := SortStrings(Keys(ps));
    SortObjectKeys(ps);
    SortObjectIsPicks(ps);
    var r := SortObject(ps);
    forall i | 0 <= i < |r| ensures ValidKey(r[i].key) && JsonTree(r[i].val) && (Tidy(Obj(ps)) ==> Tidy(r[i].val) && r[i].val != Undefined && r[i].val != Obj([])) {
      assert ks[i] in multiset(Keys(ps));
      PicksEntry(ps, ks, i);
      var j :| 0 <= j < |ps| && ps[j] == r[i];
    }
  }
}
