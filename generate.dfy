/**
 * The pure part of `_generateFileContent`: purge the existing translations
 * against the input, select the input paths to regenerate, build them from
 * the input's own values, merge the result over the purged tree and sort the
 * top level. The existing tree (the parsed locale file, or `{}`) and the
 * parsed input file are parameters.
 */
module Generate {
  import opened JsString
  import opened JsValue
  import opened KeyPath
  import opened TreeOps

  // ----- the lodash steps, by their plain meaning -----

  /** `_.uniq`: the first occurrence of each string, in order. */
  function Uniq(xs: seq<string>): seq<string>
    decreases |xs|
  {
    if xs == [] then []
    else
      var u := Uniq(xs[..|xs| - 1]);
      if xs[|xs| - 1] in u then u else u + [xs[|xs| - 1]]
  }

  /** `_.compact`: drop the falsy entries; among strings only `""` is falsy. */
  function Compact(xs: seq<string>): seq<string>
  {
    if xs == [] then [] else (if xs[0] == "" then [] else [xs[0]]) + Compact(xs[1..])
  }

  /** `_.keyBy(identity)`: each string becomes a key holding itself (`willTransformise` is false). */
  function KeyBy(xs: seq<string>): seq<Prop>
    decreases |xs|
  {
    if xs == [] then [] else Put(KeyBy(xs[..|xs| - 1]), xs[|xs| - 1], Str(xs[|xs| - 1]))
  }

  /** `_.pickBy(test)`: the properties whose key passes the selection test, in order. */
  function PickBy(ps: seq<Prop>, local: Value): seq<Prop>
  {
    if ps == [] then [] else (if Selected(local, ps[0].key) then [ps[0]] else []) + PickBy(ps[1..], local)
  }

  // ----- the selection test -----

  /** What an existing translation must start with to be regenerated: the key itself, or its tail from the last dot. */
  function Marker(key: string): string
  {
    if '.' in key then key[LastIndexOf(key, '.')..] else key
  }

  /**
   * The test given to `pickBy`: a key is regenerated when the purged locale
   * has nothing there, an empty string, or a string that still starts with
   * the marker; an object or any other string is left alone.
   */
  predicate Selected(local: Value, key: string)
  {
    var found := if '.' in key then FindInnerValue(local, key) else Get(local, key);
    match found
    case Undefined => true
    case Str(s) => s == "" || StartsWith(s, Marker(key))
    case Obj(_) => false
  }

  /**
   * The selection test on a path of segments: nothing there, the empty
   * string, or a string starting with the key (one segment) or with "." and
   * the last segment (several segments).
   */
  lemma SelectedAt(local: Value, p: seq<string>)
    requires ValidPath(p)
    ensures Selected(local, Join(p)) <==>
      (At(local, p) == Undefined || At(local, p) == Str("") ||
       (At(local, p).Str? && StartsWith(At(local, p).s, if |p| == 1 then p[0] else "." + p[|p| - 1])))
  {
    if |p| == 1 {
      assert Join(p) == p[0];
      AtCons(local, p[0], []);
      assert p == [p[0]] + [];
    } else {
      JoinHasDot(p);
      FindInnerValueAt(local, p);
      LastSegmentMarker(p);
    }
  }

  // ----- the pipeline -----

  /** The input's leaf paths, de-duplicated and compacted, keyed by themselves and filtered by the selection test. */
  function NewTranslations(local: seq<Prop>, input: seq<Prop>): seq<Prop>
  {
    PickBy(KeyBy(Compact(Uniq(Flatten(input)))), Obj(local))
  }

  /** Step 1: the existing tree purged against the input (`localText`). */
  function Local(existing: seq<Prop>, input: seq<Prop>): seq<Prop>
  {
    Purge(existing, Obj(input))
  }

  /** Steps 2 and 3: the paths to regenerate, in the order `getObjectFromTranslations` visits them. */
  function Chosen(existing: seq<Prop>, input: seq<Prop>): seq<string>
  {
    Flatten(NewTranslations(Local(existing, input), input))
  }

  /** Step 4: those paths built with the input file's own values. */
  function Built(existing: seq<Prop>, input: seq<Prop>): Value
  {
    FromTranslations(NewTranslations(Local(existing, input), input), Obj(input))
  }

  /** Step 5: `mergeDeep({}, localText, built)`. */
  function Merged(existing: seq<Prop>, input: seq<Prop>): (r: Value)
    ensures r.Obj?
  {
    MergeAll(Obj([]), [Obj(Local(existing, input)), Built(existing, input)])
  }

  /** Step 6, and the whole of `_generateFileContent` on the parsed existing and input trees. */
  function Reconcile(existing: seq<Prop>, input: seq<Prop>): seq<Prop>
  {
    SortObject(Merged(existing, input).props)
  }

  /** The original's sequence of steps. */
  method GenerateFileContent(existing: seq<Prop>, input: seq<Prop>) returns (r: seq<Prop>)
    requires WellFormed(Obj(existing))
    ensures r == Reconcile(existing, input)
  {
    var localText := PurgeOutput(existing, Obj(input));
    var paths := GetObjectNestedProperties(input);
    var foundMap := KeyBy(Compact(Uniq(paths)));
    var newTranslations := PickBy(foundMap, Obj(localText));
    var built := GetObjectFromTranslations(newTranslations, Obj(input));
    var newObject := MergeDeep(Obj([]), [Obj(localText), built]);
    r := SortObject(newObject.props);
  }

  // ----- lemmas on the lodash steps -----

  lemma {:induction false} UniqFacts(xs: seq<string>)
    ensures Distinct(Uniq(xs))
    ensures forall x :: x in Uniq(xs) <==> x in xs
    decreases |xs|
  {
    if xs != [] {
      var init := xs[..|xs| - 1];
      UniqFacts(init);
      assert xs == init + [xs[|xs| - 1]];
    }
  }

  /** Where a string first occurs in a list. */
  function FirstIndex(xs: seq<string>, x: string): (i: nat)
    requires x in xs
    ensures i < |xs| && xs[i] == x && x !in xs[..i]
  {
    if xs[0] == x then 0
    else
      assert xs == [xs[0]] + xs[1..];
      var j := FirstIndex(xs[1..], x);
      assert xs[..j + 1] == [xs[0]] + xs[1..][..j];
      j + 1
  }

  /** `_.uniq` keeps the order of first occurrences. */
  lemma {:induction false} UniqOrder(xs: seq<string>)
    ensures forall i, j :: 0 <= i < j < |Uniq(xs)| ==>
      Uniq(xs)[i] in xs && Uniq(xs)[j] in xs && FirstIndex(xs, Uniq(xs)[i]) < FirstIndex(xs, Uniq(xs)[j])
    decreases |xs|
  {
    if xs != [] {
      var init := xs[..|xs| - 1];
      var y := xs[|xs| - 1];
      assert xs == init + [y];
      UniqOrder(init);
      UniqFacts(init);
      forall z | z in init ensures FirstIndex(xs, z) == FirstIndex(init, z) {
        FirstIndexAppend(init, y, z);
      }
      var u := Uniq(xs);
      if y !in init {
        assert FirstIndex(xs, y) == |init| by {
          assert xs[..|init|] == init;
        }
        assert u == Uniq(init) + [y];
      } else {
        assert u == Uniq(init);
      }
      forall i, j | 0 <= i < j < |u| ensures u[i] in xs && u[j] in xs && FirstIndex(xs, u[i]) < FirstIndex(xs, u[j]) {
        assert u[i] in init;
        if j < |Uniq(init)| {
          assert u[j] in init;
        }
      }
    } else {
      assert Uniq(xs) == [];
    }
  }

  /** Appending to a list does not move the first occurrence of a string already in it. */
  lemma FirstIndexAppend(xs: seq<string>, y: string, z: string)
    requires z in xs
    ensures FirstIndex(xs + [y], z) == FirstIndex(xs, z)
  {
    var i := FirstIndex(xs, z);
    var k := FirstIndex(xs + [y], z);
    assert (xs + [y])[..i] == xs[..i];
    assert (xs + [y])[i] == z;
  }

  lemma {:induction false} CompactFacts(xs: seq<string>)
    ensures forall x :: x in Compact(xs) <==> x in xs && x != ""
    decreases |xs|
  {
    if xs != [] {
      CompactFacts(xs[1..]);
      assert xs == [xs[0]] + xs[1..];
    }
  }

  lemma {:induction false} KeyByFacts(xs: seq<string>)
    ensures DistinctKeys(KeyBy(xs))
    ensures forall x :: x in Keys(KeyBy(xs)) <==> x in xs
    ensures forall i :: 0 <= i < |KeyBy(xs)| ==> KeyBy(xs)[i].val == Str(KeyBy(xs)[i].key)
    decreases |xs|
  {
    if xs != [] {
      var init := xs[..|xs| - 1];
      var x := xs[|xs| - 1];
      KeyByFacts(init);
      KeysPut(KeyBy(init), x, Str(x));
      DistinctKeysPut(KeyBy(init), x, Str(x));
      KeyIndexIn(KeyBy(init), x);
      assert xs == init + [x];
    }
  }

  lemma {:induction false} PickByFacts(ps: seq<Prop>, local: Value)
    ensures forall i :: 0 <= i < |PickBy(ps, local)| ==> PickBy(ps, local)[i] in ps
    ensures forall k :: k in Keys(PickBy(ps, local)) <==> k in Keys(ps) && Selected(local, k)
    decreases |ps|
  {
    if ps != [] {
      var head := if Selected(local, ps[0].key) then [ps[0]] else [];
      var tail := PickBy(ps[1..], local);
      PickByFacts(ps[1..], local);
      assert PickBy(ps, local) == head + tail;
      PickByStep(ps, head, tail);
    }
  }

  /** Membership in `head + tail` when `head` is empty or the first property of `ps` and `tail` draws from the rest. */
  lemma PickByStep(ps: seq<Prop>, head: seq<Prop>, tail: seq<Prop>)
    requires ps != [] && (head == [] || head == [ps[0]])
    requires forall i :: 0 <= i < |tail| ==> tail[i] in ps[1..]
    ensures forall i :: 0 <= i < |head + tail| ==> (head + tail)[i] in ps
    ensures Keys(head + tail) == Keys(head) + Keys(tail)
    ensures Keys(ps) == [ps[0].key] + Keys(ps[1..])
  {
    forall i | 0 <= i < |head + tail| ensures (head + tail)[i] in ps {
      if i >= |head| {
        assert (head + tail)[i] == tail[i - |head|];
      }
    }
  }

  /** Flattening an object with no nested objects lists its keys in sorted order. */
  lemma {:induction false} FlattenFlat(ps: seq<Prop>)
    requires forall i :: 0 <= i < |ps| ==> !ps[i].val.Obj?
    ensures Flatten(ps) == SortStrings(Keys(ps))
  {
    FlattenKeysFlat(ps, SortStrings(Keys(ps)));
  }

  lemma {:induction false} FlattenKeysFlat(ps: seq<Prop>, ks: seq<string>)
    requires forall i :: 0 <= i < |ps| ==> !ps[i].val.Obj?
    ensures FlattenKeys(ps, ks) == ks
    decreases |ks|
  {
    if ks != [] {
      FlattenKeysFlat(ps, ks[1..]);
      assert Section(ps, ks[0]) == [ks[0]];
      assert ks == [ks[0]] + ks[1..];
    }
  }

  /** The paths built from the new translations are exactly the input leaves that pass the selection test. */
  lemma NewTranslationsPaths(local: seq<Prop>, input: seq<Prop>)
    requires JsonTree(Obj(input))
    ensures forall x :: x in Flatten(NewTranslations(local, input)) <==> x in Flatten(input) && Selected(Obj(local), x)
  {
    var value := Compact(Uniq(Flatten(input)));
    var nt := NewTranslations(local, input);
    UniqFacts(Flatten(input));
    CompactFacts(Uniq(Flatten(input)));
    KeyByFacts(value);
    PickByFacts(KeyBy(value), Obj(local));
    FlattenFlat(nt);
    forall x ensures x in SortStrings(Keys(nt)) <==> x in Keys(nt) {
      assert x in SortStrings(Keys(nt)) <==> x in multiset(SortStrings(Keys(nt)));
    }
    forall x | x in Flatten(input) ensures x != "" {
      FlattenSound(input, x);
    }
  }

  // ----- what the pipeline guarantees -----

  /**
   * No non-empty existing string stands where the input has an object on the
   * way to one of its strings: no translated key turned from a string into a
   * group. (An empty string is falsy, and the merge replaces it by `{}`.)
   */
  ghost predicate Compatible(existing: seq<Prop>, input: seq<Prop>)
  {
    forall r, p :: At(Obj(existing), r).Str? && At(Obj(existing), r).s != "" && At(Obj(input), p).Str? ==> !(r < p)
  }

  lemma LocalFacts(existing: seq<Prop>, input: seq<Prop>)
    requires JsonTree(Obj(existing))
    ensures JsonTree(Obj(Local(existing, input))) && Tidy(Obj(Local(existing, input)))
  {
    PurgeJson(existing, Obj(input));
  }

  /** The chosen paths are exactly the input leaves that pass the selection test on the purged tree. */
  lemma ChosenIff(existing: seq<Prop>, input: seq<Prop>)
    requires JsonTree(Obj(input))
    ensures forall x :: x in Chosen(existing, input) <==> x in Flatten(input) && Selected(Obj(Local(existing, input)), x)
  {
    NewTranslationsPaths(Local(existing, input), input);
  }

  /** The built tree holds the input's value at every chosen path, and nothing else. */
  lemma BuiltFacts(existing: seq<Prop>, input: seq<Prop>)
    requires JsonTree(Obj(input))
    ensures BuiltFrom(Built(existing, input), Obj(input), Chosen(existing, input))
    ensures forall x :: x in Chosen(existing, input) ==> At(Built(existing, input), Split(x)) == At(Obj(input), Split(x))
  {
    var nt := NewTranslations(Local(existing, input), input);
    ChosenIff(existing, input);
    forall x | x in Flatten(nt) ensures At(Obj(input), Split(x)).Str? {
      FlattenSound(input, x);
    }
    FromTranslationsFacts(nt, Obj(input));
  }

  /** Merging into `{}` first copies the purged tree, so the merge is the built tree merged over it. */
  lemma MergedFacts(existing: seq<Prop>, input: seq<Prop>)
    requires JsonTree(Obj(existing)) && JsonTree(Obj(input))
    ensures Merged(existing, input) == MergeOne(Obj(Local(existing, input)), Built(existing, input))
    ensures JsonTree(Merged(existing, input)) && Tidy(Merged(existing, input))
  {
    var local := Local(existing, input);
    var built := Built(existing, input);
    LocalFacts(existing, input);
    assert JsonTree(built) && Tidy(built) by {
      BuiltFacts(existing, input);
    }
    JsonTreeWellFormed(Obj(local));
    MergeCopy(Obj(local));
    var sources := [Obj(local), built];
    assert MergeAll(Obj([]), sources) == MergeAll(MergeOne(Obj([]), Obj(local)), sources[1..]);
    assert sources[1..] == [built];
    assert MergeAll(Obj(local), [built]) == MergeAll(MergeOne(Obj(local), built), []);
    MergeJson(Obj(local), built);
  }

  /** Sorting moves only the top level: every nonempty path reads the merged tree. */
  lemma ReconcileAt(existing: seq<Prop>, input: seq<Prop>, r: seq<string>)
    requires JsonTree(Obj(existing)) && JsonTree(Obj(input)) && r != []
    ensures At(Obj(Reconcile(existing, input)), r) == At(Merged(existing, input), r)
  {
    MergedFacts(existing, input);
    SortObjectAt(Merged(existing, input).props, r);
  }

  /** Every selected input path ends up holding the input file's own value. */
  lemma ReconcileCoversSelected(existing: seq<Prop>, input: seq<Prop>, p: seq<string>)
    requires JsonTree(Obj(existing)) && JsonTree(Obj(input)) && Compatible(existing, input)
    requires At(Obj(input), p).Str? && Selected(Obj(Local(existing, input)), Join(p))
    ensures At(Obj(Reconcile(existing, input)), p) == At(Obj(input), p)
  {
    var local := Local(existing, input);
    forall q | q < p && q != [] ensures NoTruthyLeaf(Obj(local), q) {
      if At(Obj(local), q).Str? {
        PurgeSound(existing, Obj(input), q);
      }
    }
    ReconcileLands(existing, input, p);
  }

  /** A selected input path that no non-empty string of the purged tree stands above receives the input's value. */
  lemma ReconcileLands(existing: seq<Prop>, input: seq<Prop>, p: seq<string>)
    requires JsonTree(Obj(existing)) && JsonTree(Obj(input))
    requires At(Obj(input), p).Str? && Selected(Obj(Local(existing, input)), Join(p))
    requires !Shadowed(Obj(Local(existing, input)), p)
    ensures At(Obj(Reconcile(existing, input)), p) == At(Obj(input), p)
  {
    var local := Local(existing, input);
    var built := Built(existing, input);
    LocalFacts(existing, input);
    ChosenIff(existing, input);
    BuiltFacts(existing, input);
    MergedFacts(existing, input);
    FlattenComplete(input, p);
    JsonTreePathValid(Obj(input), p);
    SplitJoin(p);
    assert Join(p) in Chosen(existing, input);
    assert At(built, p) == At(Obj(input), p);
    MergeAtSource(Obj(local), built, p);
    ReconcileAt(existing, input, p);
  }

  /**
   * A selected input path below a non-empty string of the purged tree is not
   * written: the string stays, so the result keeps a non-empty string above it.
   */
  lemma ReconcileKeepsShadow(existing: seq<Prop>, input: seq<Prop>, p: seq<string>)
    requires JsonTree(Obj(existing)) && JsonTree(Obj(input))
    requires At(Obj(input), p).Str? && Shadowed(Obj(Local(existing, input)), p)
    ensures Shadowed(Obj(Reconcile(existing, input)), p)
  {
    var local := Local(existing, input);
    var built := Built(existing, input);
    var q :| q < p && q != [] && !NoTruthyLeaf(Obj(local), q);
    LocalFacts(existing, input);
    BuiltFacts(existing, input);
    MergedFacts(existing, input);
    forall q' | q' <= q && q' != [] ensures !At(built, q').Str? {
      if At(built, q').Str? {
        assert At(Obj(input), q') == At(built, q');
        LeafPath(Obj(input), q');
      }
    }
    MergeAtTarget(Obj(local), built, q);
    ReconcileAt(existing, input, q);
    assert !NoTruthyLeaf(Obj(Reconcile(existing, input)), q);
  }

  /** Every surviving existing string that is not selected keeps its existing value. */
  lemma ReconcileKeepsUnselected(existing: seq<Prop>, input: seq<Prop>, r: seq<string>)
    requires JsonTree(Obj(existing)) && JsonTree(Obj(input))
    requires At(Obj(Local(existing, input)), r).Str? && !Selected(Obj(Local(existing, input)), Join(r))
    ensures At(Obj(Reconcile(existing, input)), r) == At(Obj(existing), r)
  {
    var local := Local(existing, input);
    LocalFacts(existing, input);
    ChosenIff(existing, input);
    JsonTreePathValid(Obj(local), r);
    SelectedAt(Obj(local), r);
    ReconcileKeepsUnchosen(existing, input, r);
  }

  /**
   * Every surviving non-empty existing string whose path the pipeline does not
   * choose keeps its existing value. This covers a string that passes the
   * selection test at a path the input turned into a group: the path is not an
   * input leaf, so nothing is built there, and the merge cannot enter a string.
   */
  lemma ReconcileKeepsUnchosen(existing: seq<Prop>, input: seq<Prop>, r: seq<string>)
    requires JsonTree(Obj(existing)) && JsonTree(Obj(input))
    requires At(Obj(Local(existing, input)), r).Str? && At(Obj(Local(existing, input)), r).s != ""
    requires Join(r) !in Chosen(existing, input)
    ensures At(Obj(Reconcile(existing, input)), r) == At(Obj(existing), r)
  {
    var local := Local(existing, input);
    var keys := Chosen(existing, input);
    var built := Built(existing, input);
    LocalFacts(existing, input);
    BuiltFacts(existing, input);
    PurgeSound(existing, Obj(input), r);
    JsonTreePathValid(Obj(local), r);
    SplitJoin(r);
    assert !At(built, r).Str?;
    assert !NoTruthyLeaf(Obj(local), r);
    forall q | q <= r && q != [] ensures !At(built, q).Str? {
      if q != r && At(built, q).Str? {
        assert q < r;
        assert At(Obj(input), q) == At(built, q);
        LeafPath(Obj(input), q);
      }
    }
    MergeAtTarget(Obj(local), built, r);
    MergedFacts(existing, input);
    ReconcileAt(existing, input, r);
  }

  /** No orphan survives: every string of the result is defined in the input and comes from the existing tree or the input. */
  lemma ReconcileNoOrphans(existing: seq<Prop>, input: seq<Prop>, r: seq<string>)
    requires JsonTree(Obj(existing)) && JsonTree(Obj(input)) && At(Obj(Reconcile(existing, input)), r).Str?
    ensures At(Obj(input), r) != Undefined
    ensures At(Obj(Reconcile(existing, input)), r) == At(Obj(existing), r) || At(Obj(Reconcile(existing, input)), r) == At(Obj(input), r)
  {
    var local := Local(existing, input);
    var built := Built(existing, input);
    LocalFacts(existing, input);
    BuiltFacts(existing, input);
    MergedFacts(existing, input);
    assert r != [];
    ReconcileAt(existing, input, r);
    MergeLeaves(Obj(local), built, r);
    if At(Obj(local), r).Str? {
      PurgeSound(existing, Obj(input), r);
    }
  }

  /** The result is a clean tree whose top-level keys are in ascending order. */
  lemma ReconcileSorted(existing: seq<Prop>, input: seq<Prop>)
    requires JsonTree(Obj(existing)) && JsonTree(Obj(input))
    ensures StrictlySorted(Keys(Reconcile(existing, input)))
    ensures JsonTree(Obj(Reconcile(existing, input))) && Tidy(Obj(Reconcile(existing, input)))
  {
    MergedFacts(existing, input);
    SortObjectKeys(Merged(existing, input).props);
    SortObjectJson(Merged(existing, input).props);
  }

  /** Feeding the result back in as the existing tree gives the same tree. */
  lemma ReconcileIdempotent(existing: seq<Prop>, input: seq<Prop>)
    requires JsonTree(Obj(existing)) && JsonTree(Obj(input))
    ensures Reconcile(Reconcile(existing, input), input) == Reconcile(existing, input)
  {
    var res := Reconcile(existing, input);
    ReconcileSorted(existing, input);
    SecondPurge(existing, input);
    SecondBuildAbsorbed(existing, input);
    MergedFacts(res, input);
    MergeAbsorbed(Obj(res), Built(res, input));
    SortObjectSortedIdentity(res);
  }

  /** The second purge removes nothing: every string of the result is defined in the input. */
  lemma SecondPurge(existing: seq<Prop>, input: seq<Prop>)
    requires JsonTree(Obj(existing)) && JsonTree(Obj(input))
    ensures Local(Reconcile(existing, input), input) == Reconcile(existing, input)
  {
    var res := Reconcile(existing, input);
    ReconcileSorted(existing, input);
    forall r | At(Obj(res), r).Str? ensures At(Obj(input), r) != Undefined {
      ReconcileNoOrphans(existing, input, r);
    }
    PurgeIdentity(res, Obj(input));
  }

  /** What the second run builds is already in the result, or stopped by a non-empty string of it. */
  lemma SecondBuildAbsorbed(existing: seq<Prop>, input: seq<Prop>)
    requires JsonTree(Obj(existing)) && JsonTree(Obj(input))
    ensures Absorbs(Obj(Reconcile(existing, input)), Built(Reconcile(existing, input), input))
  {
    var res := Reconcile(existing, input);
    SecondPurge(existing, input);
    var keys := Chosen(res, input);
    var built := Built(res, input);
    ChosenIff(res, input);
    BuiltFacts(res, input);
    forall x | x in keys ensures At(Obj(res), Split(x)) == At(Obj(input), Split(x)) || Shadowed(Obj(res), Split(x)) {
      SelectedAgain(existing, input, x);
    }
    forall r | At(built, r).Str? ensures At(Obj(res), r) == At(built, r) || Shadowed(Obj(res), r) {
      JsonTreePathValid(built, r);
      SplitJoin(r);
    }
    forall r | At(built, r).Obj? ensures At(Obj(res), r).Obj? || (r != [] && !NoTruthyLeaf(Obj(res), r)) || Shadowed(Obj(res), r) {
      if r != [] {
        var i :| 0 <= i < |keys| && r < Split(keys[i]);
        var p := Split(keys[i]);
        FlattenSound(input, keys[i]);
        if At(Obj(res), p) == At(Obj(input), p) {
          LeafPath(Obj(res), p);
        } else {
          ShadowedPrefix(Obj(res), r, p);
        }
      }
    }
    AbsorbsAt(Obj(res), built);
  }

  /** A path above a shadowed one holds an object, holds the shadowing string, or is shadowed too. */
  lemma ShadowedPrefix(v: Value, r: seq<string>, p: seq<string>)
    requires r < p && r != [] && Shadowed(v, p)
    ensures At(v, r).Obj? || !NoTruthyLeaf(v, r) || Shadowed(v, r)
  {
    var q :| q < p && q != [] && !NoTruthyLeaf(v, q);
    assert q == p[..|q|] && r == p[..|r|];
    if |r| < |q| {
      assert r == q[..|r|];
      LeafPath(v, q);
    } else if |q| < |r| {
      assert q == r[..|q|];
    } else {
      assert q == r;
    }
  }

  /**
   * A path selected on the second run already holds the input's value, or a
   * non-empty string of the result stands above it: an existing string that
   * failed the test on the first run is kept as it was and fails it again.
   */
  lemma SelectedAgain(existing: seq<Prop>, input: seq<Prop>, x: string)
    requires JsonTree(Obj(existing)) && JsonTree(Obj(input))
    requires x in Flatten(input) && Selected(Obj(Reconcile(existing, input)), x)
    ensures At(Obj(Reconcile(existing, input)), Split(x)) == At(Obj(input), Split(x)) || Shadowed(Obj(Reconcile(existing, input)), Split(x))
  {
    var res := Reconcile(existing, input);
    var local := Local(existing, input);
    var p := Split(x);
    FlattenSound(input, x);
    JoinSplit(x);
    LocalFacts(existing, input);
    if Selected(Obj(local), x) {
      if Shadowed(Obj(local), p) {
        ReconcileKeepsShadow(existing, input, p);
      } else {
        ReconcileLands(existing, input, p);
      }
    } else {
      SelectedAt(Obj(local), p);
      SelectedAt(Obj(res), p);
      if At(Obj(local), p).Obj? {
        TidyLeafBelow(Obj(local), p);
        var q :| p < q && At(Obj(local), q).Str?;
        PurgeSound(existing, Obj(input), q);
        LeafPath(Obj(input), p);
        assert false;
      }
      PurgeSound(existing, Obj(input), p);
      ReconcileKeepsUnselected(existing, input, p);
    }
  }

  /**
   * Without `Compatible` a selected path can be lost. When a key `a` that
   * held a non-empty string has become a group holding `a.b` in the input,
   * the purge keeps the string (the input defines `a`), the selection picks
   * `a.b`, and the merge cannot descend into the string: the result is the
   * existing tree, without the input's `a.b`.
   */
  lemma TypeConflictKeepsString(a: string, b: string, x: string, y: string)
    requires ValidKey(a) && ValidKey(b) && x != ""
    ensures var existing := [Prop(a, Str(x))];
      var input := [Prop(a, Obj([Prop(b, Str(y))]))];
      At(Obj(input), [a, b]) == Str(y) &&
      Selected(Obj(Local(existing, input)), Join([a, b])) &&
      Reconcile(existing, input) == existing
  {
    var existing := [Prop(a, Str(x))];
    var input := [Prop(a, Obj([Prop(b, Str(y))]))];
    ConflictPaths(a, b, y);
    ConflictLocal(a, b, x, y);
    ConflictBuilt(a, b, x, y);
    assert Merged(existing, input) == Obj(existing) by {
      MergeTwo(Obj([]), Obj(existing), Obj(input));
      MergeCopy(Obj(existing));
      MergeIntoString(a, x, Obj([Prop(b, Str(y))]));
    }
    SortObjectSortedIdentity(existing);
  }

  /** `mergeDeep(t, s1, s2)` merges `s1`, then `s2`. */
  lemma MergeTwo(t: Value, s1: Value, s2: Value)
    ensures MergeAll(t, [s1, s2]) == MergeOne(MergeOne(t, s1), s2)
  {
    assert [s1, s2][1..] == [s2];
    assert MergeAll(t, [s1, s2]) == MergeAll(MergeOne(t, s1), [s2]);
    assert [s2][1..] == [];
    assert MergeAll(MergeOne(t, s1), [s2]) == MergeAll(MergeOne(MergeOne(t, s1), s2), []);
  }

  /** Merging an object into a key that holds a non-empty string leaves the string. */
  lemma MergeIntoString(a: string, x: string, sv: Value)
    requires x != "" && sv.Obj?
    ensures MergeOne(Obj([Prop(a, Str(x))]), Obj([Prop(a, sv)])) == Obj([Prop(a, Str(x))])
  {
    var e := [Prop(a, Str(x))];
    assert MergeKey(e, a, sv) == e;
    assert MergeProps(e, [Prop(a, sv)]) == MergeProps(e, []);
  }

  lemma ConflictPaths(a: string, b: string, y: string)
    requires ValidKey(a) && ValidKey(b)
    ensures Join([a, b]) == a + "." + b && Split(a + "." + b) == [a, b]
    ensures At(Obj([Prop(a, Obj([Prop(b, Str(y))]))]), [a, b]) == Str(y)
    ensures Flatten([Prop(a, Obj([Prop(b, Str(y))]))]) == [a + "." + b]
  {
    ConflictJoin(a, b);
    ConflictAt(a, b, y);
    ConflictFlatten(a, b, y);
  }

  /** The two-segment path `[a, b]` and the key `a.b` correspond. */
  lemma ConflictJoin(a: string, b: string)
    requires ValidKey(a) && ValidKey(b)
    ensures Join([a, b]) == a + "." + b && Split(a + "." + b) == [a, b]
  {
    assert Join([a, b]) == a + "." + b;
    SplitJoin([a, b]);
  }

  /** The input's group at `a` holds `y` at `a.b`. */
  lemma ConflictAt(a: string, b: string, y: string)
    ensures At(Obj([Prop(a, Obj([Prop(b, Str(y))]))]), [a, b]) == Str(y)
  {
    var inner := [Prop(b, Str(y))];
    AtCons(Obj([Prop(a, Obj(inner))]), a, [b]);
    AtCons(Obj(inner), b, []);
    assert [b] + [] == [b];
  }

  /** The input's only leaf is `a.b`. */
  lemma ConflictFlatten(a: string, b: string, y: string)
    ensures Flatten([Prop(a, Obj([Prop(b, Str(y))]))]) == [a + "." + b]
  {
    var inner := [Prop(b, Str(y))];
    FlattenOneLeaf(b, y);
    FlattenOneObj(a, inner);
  }

  /** A one-property object holding a string flattens to its key. */
  lemma FlattenOneLeaf(k: string, s: string)
    ensures Flatten([Prop(k, Str(s))]) == [k]
  {
    var ps := [Prop(k, Str(s))];
    assert SortStrings([k]) == [k] && Keys(ps) == [k];
    assert FlattenKeys(ps, [k]) == Section(ps, k) + FlattenKeys(ps, []);
  }

  /** A one-property object holding an object flattens to that object's paths behind its key. */
  lemma FlattenOneObj(k: string, inner: seq<Prop>)
    ensures Flatten([Prop(k, Obj(inner))]) == Prefixed(k, Flatten(inner))
  {
    var ps := [Prop(k, Obj(inner))];
    assert SortStrings([k]) == [k] && Keys(ps) == [k];
    assert FlattenKeys(ps, [k]) == Section(ps, k) + FlattenKeys(ps, []);
  }

  lemma ConflictLocal(a: string, b: string, x: string, y: string)
    requires ValidKey(a) && ValidKey(b) && x != ""
    ensures Local([Prop(a, Str(x))], [Prop(a, Obj([Prop(b, Str(y))]))]) == [Prop(a, Str(x))]
    ensures Selected(Obj([Prop(a, Str(x))]), a + "." + b)
  {
    ConflictLocalTree(a, b, x, y);
    ConflictSelected(a, b, x, y);
  }

  /** The purge keeps the string at `a`: the input defines `a`, if as a group. */
  lemma ConflictLocalTree(a: string, b: string, x: string, y: string)
    requires ValidKey(a)
    ensures Local([Prop(a, Str(x))], [Prop(a, Obj([Prop(b, Str(y))]))]) == [Prop(a, Str(x))]
  {
    var input := [Prop(a, Obj([Prop(b, Str(y))]))];
    FlattenOneLeaf(a, x);
    assert FindInnerValue(Obj(input), a) == Obj([Prop(b, Str(y))]);
    PurgeOneKept(a, x, Obj(input));
    ClearOneLeaf(a, x);
  }

  /** A leaf the input defines survives the purge loop. */
  lemma PurgeOneKept(a: string, x: string, input: Value)
    requires FindInnerValue(input, a) != Undefined
    ensures PurgeFold(Obj([Prop(a, Str(x))]), [a], input) == Obj([Prop(a, Str(x))])
  {
    var v := Obj([Prop(a, Str(x))]);
    assert PurgeTurn(v, a, input) == v;
    assert [a][1..] == [];
  }

  /** Clearing a one-property object holding a string changes nothing. */
  lemma ClearOneLeaf(a: string, x: string)
    ensures ClearEmpty([Prop(a, Str(x))]) == [Prop(a, Str(x))]
  {
    assert ClearEmpty([Prop(a, Str(x))]) == [Prop(a, Str(x))] + ClearEmpty([]);
  }

  /** `a.b` passes the selection test on the existing tree: the string at `a` leaves nothing at `a.b`. */
  lemma ConflictSelected(a: string, b: string, x: string, y: string)
    requires ValidKey(a) && ValidKey(b)
    ensures Selected(Obj([Prop(a, Str(x))]), a + "." + b)
  {
    var existing := [Prop(a, Str(x))];
    ConflictPaths(a, b, y);
    JoinHasDot([a, b]);
    FindInnerValueAt(Obj(existing), [a, b]);
    AtCons(Obj(existing), a, [b]);
  }

  lemma ConflictBuilt(a: string, b: string, x: string, y: string)
    requires ValidKey(a) && ValidKey(b) && x != ""
    ensures Built([Prop(a, Str(x))], [Prop(a, Obj([Prop(b, Str(y))]))]) == Obj([Prop(a, Obj([Prop(b, Str(y))]))])
  {
    var k := a + "." + b;
    var flat := [Prop(k, Str(k))];
    ConflictLocal(a, b, x, y);
    ConflictNew(a, b, x, y);
    FlattenFlat(flat);
    assert SortStrings([k]) == [k] && Keys(flat) == [k];
    ConflictBuildAll(a, b, y);
  }

  lemma ConflictNew(a: string, b: string, x: string, y: string)
    requires ValidKey(a) && ValidKey(b) && x != ""
    ensures NewTranslations([Prop(a, Str(x))], [Prop(a, Obj([Prop(b, Str(y))]))]) == [Prop(a + "." + b, Str(a + "." + b))]
  {
    var existing := [Prop(a, Str(x))];
    var k := a + "." + b;
    var flat := [Prop(k, Str(k))];
    ConflictPaths(a, b, y);
    ConflictLocal(a, b, x, y);
    SingleSteps(k, Obj(existing));
  }

  /** The lodash steps on a single non-empty path that passes the selection test. */
  lemma SingleSteps(k: string, local: Value)
    requires k != "" && Selected(local, k)
    ensures PickBy(KeyBy(Compact(Uniq([k]))), local) == [Prop(k, Str(k))]
  {
    assert Uniq([k]) == [k] by { assert [k][..0] == []; }
    assert Compact([k]) == [k] by { assert Compact([k]) == [k] + Compact([]); }
    assert KeyBy([k]) == [Prop(k, Str(k))] by { assert [k][..0] == []; }
    assert PickBy([Prop(k, Str(k))], local) == [Prop(k, Str(k))] + PickBy([], local);
  }

  lemma ConflictBuildAll(a: string, b: string, y: string)
    requires ValidKey(a) && ValidKey(b)
    ensures BuildAll(Obj([]), [a + "." + b], Obj([Prop(a, Obj([Prop(b, Str(y))]))])) == Obj([Prop(a, Obj([Prop(b, Str(y))]))])
  {
    var input := [Prop(a, Obj([Prop(b, Str(y))]))];
    var ab := [a, b];
    var k := a + "." + b;
    ConflictPaths(a, b, y);
    FindInnerValueAt(Obj(input), ab);
    BuildObjectAt(Obj([]), ab, Str(y));
    assert BuildAt(Obj([]), ab[1..], Str(y)) == Obj([Prop(b, Str(y))]);
    assert BuildAll(Obj([]), [k], Obj(input)) == BuildAll(BuildObject(Obj([]), k, Str(y)), [], Obj(input));
  }
}
