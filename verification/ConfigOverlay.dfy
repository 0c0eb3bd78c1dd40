/**
 The overlay of a stored configuration on schema defaults, at every depth.
 */
module ConfigOverlay {
  import opened Json

  /** `mergePreservingOriginal`: undefined sides give way, like containers merge, and otherwise the original wins. */
  ghost function Merge(defaults: Json, original: Json): Json
    decreases original, 1, 0
  {
    if original == Undefined then defaults
    else if defaults == Undefined then original
    else if defaults.Arr? && original.Arr? then
      Arr(MergeElems(defaults.elems, original, if |defaults.elems| < |original.elems| then |original.elems| else |defaults.elems|))
    else if defaults.Obj? && original.Obj? then
      var ds, os := defaults.fields, original.fields;
      Obj(ds + os + Tabulate(ds.Keys * os.Keys, k requires k in ds && k in os => Merge(ds[k], os[k])))
    else original
  }

  /** The first `n` merged elements; past the end of one array its element is undefined and the other's is taken. */
  ghost function MergeElems(ds: seq<Json>, original: Json, n: nat): (r: seq<Json>)
    requires original.Arr? && (n <= |ds| || n <= |original.elems|)
    ensures |r| == n
    ensures forall i :: 0 <= i < n ==>
              r[i] == if i >= |ds| then original.elems[i]
                      else if i >= |original.elems| then ds[i]
                      else Merge(ds[i], original.elems[i])
    decreases original, 0, n
  {
    if n == 0 then []
    else
      var i := n - 1;
      MergeElems(ds, original, i)
      + [if i >= |ds| then original.elems[i]
         else if i >= |original.elems| then ds[i]
         else Merge(ds[i], original.elems[i])]
  }

  /** A map with the given keys and values. */
  ghost function Tabulate(ks: set<string>, f: string --> Json): (r: map<string, Json>)
    requires forall k :: k in ks ==> f.requires(k)
    ensures r.Keys == ks && forall k :: k in ks ==> r[k] == f(k)
    decreases |ks|
  {
    if ks == {} then map[]
    else
      var k :| k in ks;
      Tabulate(ks - {k}, f)[k := f(k)]
  }

  // ---- paths ----

  /** What lies one step below; undefined if nothing does. */
  function Child(j: Json, s: PathStep): Json {
    match s
    case Index(i) => if j.Arr? && i < |j.elems| then j.elems[i] else Undefined
    case Field(k) => if j.Obj? && k in j.fields then j.fields[k] else Undefined
  }

  function Lookup(j: Json, path: seq<PathStep>): Json
    decreases |path|
  {
    if path == [] then j else Lookup(Child(j, path[0]), path[1..])
  }

  predicate IsLeaf(j: Json) {
    !j.Undefined? && !j.Arr? && !j.Obj?
  }

  predicate SameContainer(a: Json, b: Json) {
    (a.Arr? && b.Arr?) || (a.Obj? && b.Obj?)
  }

  /** The original has nothing at or above `path`, and above the gap both sides are containers of one kind. */
  predicate IsGap(defaults: Json, original: Json, path: seq<PathStep>)
    decreases |path|
  {
    original == Undefined
    || (path != [] && SameContainer(defaults, original)
        && IsGap(Child(defaults, path[0]), Child(original, path[0]), path[1..]))
  }

  lemma ChildOfMerge(defaults: Json, original: Json, s: PathStep)
    requires SameContainer(defaults, original)
    ensures Child(Merge(defaults, original), s) == Merge(Child(defaults, s), Child(original, s))
  {
  }

  lemma {:induction false} LookupUndefined(path: seq<PathStep>)
    ensures Lookup(Undefined, path) == Undefined
    decreases |path|
  {
    if path != [] {
      LookupUndefined(path[1..]);
    }
  }

  /**
   The leaves of a merge, at every depth: each leaf of the original, and each leaf of the defaults that falls into
   a gap of the original. Nothing else.
   */
  lemma {:induction false} MergedLeaves(defaults: Json, original: Json, path: seq<PathStep>, leaf: Json)
    requires IsLeaf(leaf)
    ensures Lookup(Merge(defaults, original), path) == leaf
       <==> Lookup(original, path) == leaf || (IsGap(defaults, original, path) && Lookup(defaults, path) == leaf)
    decreases |path|
  {
    LookupUndefined(path);
    if path != [] && SameContainer(defaults, original) {
      ChildOfMerge(defaults, original, path[0]);
      MergedLeaves(Child(defaults, path[0]), Child(original, path[0]), path[1..], leaf);
    }
  }

  /** An array or an object, as asked. */
  predicate IsContainer(j: Json, ofArrays: bool) {
    if ofArrays then j.Arr? else j.Obj?
  }

  /** The same for containers: objects and arrays are exactly where the original has them, or has a gap for the defaults'. */
  lemma {:induction false} MergedContainers(defaults: Json, original: Json, path: seq<PathStep>, ofArrays: bool)
    ensures IsContainer(Lookup(Merge(defaults, original), path), ofArrays)
       <==> IsContainer(Lookup(original, path), ofArrays)
            || (IsGap(defaults, original, path) && IsContainer(Lookup(defaults, path), ofArrays))
    decreases |path|
  {
    LookupUndefined(path);
    if path != [] && SameContainer(defaults, original) {
      ChildOfMerge(defaults, original, path[0]);
      MergedContainers(Child(defaults, path[0]), Child(original, path[0]), path[1..], ofArrays);
    }
  }

  /** Every leaf the original defines is in the result, unchanged. */
  lemma OriginalLeavesSurvive(defaults: Json, original: Json, path: seq<PathStep>)
    requires IsLeaf(Lookup(original, path))
    ensures Lookup(Merge(defaults, original), path) == Lookup(original, path)
  {
    MergedLeaves(defaults, original, path, Lookup(original, path));
  }

  // ---- merging again ----

  lemma {:induction false} MergeSelf(j: Json)
    ensures Merge(j, j) == j
  {
    match j
    case Arr(es) =>
      forall i | 0 <= i < |es| ensures Merge(es[i], es[i]) == es[i] { MergeSelf(es[i]); }
      assert Merge(j, j).elems == es;
    case Obj(fs) =>
      forall k | k in fs ensures Merge(fs[k], fs[k]) == fs[k] { MergeSelf(fs[k]); }
      assert Merge(j, j).fields == fs;
    case _ =>
  }

  /** Defaults that were merged once add nothing when they are merged again. */
  lemma {:induction false} MergeIdempotent(defaults: Json, original: Json)
    ensures Merge(defaults, Merge(defaults, original)) == Merge(defaults, original)
    decreases original
  {
    if original == Undefined || defaults == Undefined {
      MergeSelf(defaults);
    } else if defaults.Arr? && original.Arr? {
      ElemsIdempotent(defaults, original);
    } else if defaults.Obj? && original.Obj? {
      FieldsIdempotent(defaults, original);
    }
  }

  lemma {:induction false} ElemsIdempotent(defaults: Json, original: Json)
    requires defaults.Arr? && original.Arr?
    ensures Merge(defaults, Merge(defaults, original)) == Merge(defaults, original)
    decreases original, 0
  {
    var ds, os, once := defaults.elems, original.elems, Merge(defaults, original);
    var twice := Merge(defaults, once);
    assert |twice.elems| == |once.elems|;
    forall i | 0 <= i < |once.elems|
      ensures twice.elems[i] == once.elems[i]
    {
      if i < |ds| && i < |os| {
        MergeIdempotent(ds[i], os[i]);
      } else if i < |ds| {
        MergeSelf(ds[i]);
      }
    }
    assert twice.elems == once.elems;
  }

  lemma {:induction false} FieldsIdempotent(defaults: Json, original: Json)
    requires defaults.Obj? && original.Obj?
    ensures Merge(defaults, Merge(defaults, original)) == Merge(defaults, original)
    decreases original, 0
  {
    var ds, os, once := defaults.fields, original.fields, Merge(defaults, original);
    var twice := Merge(defaults, once);
    assert twice.fields.Keys == once.fields.Keys;
    forall k | k in once.fields
      ensures twice.fields[k] == once.fields[k]
    {
      if k in ds && k in os {
        MergeIdempotent(ds[k], os[k]);
      } else if k in ds {
        MergeSelf(ds[k]);
      }
    }
    assert twice.fields == once.fields;
  }
}
