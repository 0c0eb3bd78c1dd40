/**
 Finite JSON trees and the two containment tests of the recorder's filter.
 */
module Json {

  /** `Undefined` is JavaScript's undefined: the body of a request that had none. */
  datatype Json =
    | Undefined
    | Null
    | Bool(b: bool)
    | Num(n: real)
    | Str(s: string)
    | Arr(elems: seq<Json>)
    | Obj(fields: map<string, Json>)

  /** `target` contains, at this exact place, everything in `needle`. */
  predicate MatchesSubset(target: Json, needle: Json)
    decreases needle
  {
    match needle
    case Obj(fs) => target.Obj? && forall k :: k in fs ==> k in target.fields && MatchesSubset(target.fields[k], fs[k])
    case Arr(ns) => target.Arr? && forall n :: n in ns ==> exists t :: t in target.elems && MatchesSubset(t, n)
    case _ => target == needle
  }

  /** The needle's shape appears at some depth of `target`. */
  predicate DeepContains(target: Json, needle: Json)
    decreases target
  {
    || MatchesSubset(target, needle)
    || (target.Arr? && exists t :: t in target.elems && DeepContains(t, needle))
    || (target.Obj? && exists k :: k in target.fields && DeepContains(target.fields[k], needle))
  }

  lemma {:induction false} SubsetReflexive(j: Json)
    ensures MatchesSubset(j, j)
  {
    match j
    case Obj(fs) =>
      forall k | k in fs ensures MatchesSubset(fs[k], fs[k]) { SubsetReflexive(fs[k]); }
    case Arr(ns) =>
      forall n | n in ns ensures MatchesSubset(n, n) { SubsetReflexive(n); }
    case _ =>
  }

  lemma {:induction false} SubsetTransitive(a: Json, b: Json, c: Json)
    requires MatchesSubset(a, b) && MatchesSubset(b, c)
    ensures MatchesSubset(a, c)
    decreases c
  {
    match c
    case Obj(fs) =>
      forall k | k in fs ensures k in a.fields && MatchesSubset(a.fields[k], fs[k]) {
        SubsetTransitive(a.fields[k], b.fields[k], fs[k]);
      }
    case Arr(ns) =>
      forall n | n in ns ensures exists t :: t in a.elems && MatchesSubset(t, n) {
        var u :| u in b.elems && MatchesSubset(u, n);
        var t :| t in a.elems && MatchesSubset(t, u);
        SubsetTransitive(t, u, n);
      }
    case _ =>
  }

  lemma DeepContainsReflexive(j: Json)
    ensures DeepContains(j, j)
  {
    SubsetReflexive(j);
  }

  /** Whatever lies deep inside the matched needle lies deep inside the target. */
  lemma {:induction false} SubsetThenDeep(a: Json, b: Json, c: Json)
    requires MatchesSubset(a, b) && DeepContains(b, c)
    ensures DeepContains(a, c)
    decreases b
  {
    if MatchesSubset(b, c) {
      SubsetTransitive(a, b, c);
    } else if b.Arr? {
      var u :| u in b.elems && DeepContains(u, c);
      var t :| t in a.elems && MatchesSubset(t, u);
      SubsetThenDeep(t, u, c);
    } else {
      var k :| k in b.fields && DeepContains(b.fields[k], c);
      SubsetThenDeep(a.fields[k], b.fields[k], c);
    }
  }

  lemma {:induction false} DeepContainsTransitive(a: Json, b: Json, c: Json)
    requires DeepContains(a, b) && DeepContains(b, c)
    ensures DeepContains(a, c)
    decreases a
  {
    if MatchesSubset(a, b) {
      SubsetThenDeep(a, b, c);
    } else if a.Arr? {
      var t :| t in a.elems && DeepContains(t, b);
      DeepContainsTransitive(t, b, c);
    } else {
      var k :| k in a.fields && DeepContains(a.fields[k], b);
      DeepContainsTransitive(a.fields[k], b, c);
    }
  }

  // ---- a reference definition: containment at some path ----

  datatype PathStep = Index(i: nat) | Field(key: string)

  /** The subtree at the end of `path`, if there is one. */
  ghost predicate SubtreeAt(j: Json, path: seq<PathStep>, sub: Json)
    decreases path
  {
    if path == [] then j == sub
    else match path[0]
      case Index(i) => j.Arr? && i < |j.elems| && SubtreeAt(j.elems[i], path[1..], sub)
      case Field(k) => j.Obj? && k in j.fields && SubtreeAt(j.fields[k], path[1..], sub)
  }

  ghost predicate OccursAt(target: Json, path: seq<PathStep>, sub: Json, needle: Json) {
    SubtreeAt(target, path, sub) && MatchesSubset(sub, needle)
  }

  /** The recursive search finds the needle exactly when it matches the subtree at some path. */
  lemma DeepContainsIsSomePath(target: Json, needle: Json)
    ensures DeepContains(target, needle) <==> exists path, sub :: OccursAt(target, path, sub, needle)
  {
    if DeepContains(target, needle) {
      var path, sub := PathTo(target, needle);
      assert OccursAt(target, path, sub, needle);
    } else if path, sub :| OccursAt(target, path, sub, needle) {
      PathIsDeep(target, path, sub, needle);
    }
  }

  lemma {:induction false} PathTo(target: Json, needle: Json) returns (path: seq<PathStep>, sub: Json)
    requires DeepContains(target, needle)
    ensures SubtreeAt(target, path, sub) && MatchesSubset(sub, needle)
    decreases target
  {
    if MatchesSubset(target, needle) {
      path, sub := [], target;
    } else if target.Arr? {
      var i :| 0 <= i < |target.elems| && DeepContains(target.elems[i], needle);
      var rest, s := PathTo(target.elems[i], needle);
      path, sub := [Index(i)] + rest, s;
    } else {
      var k :| k in target.fields && DeepContains(target.fields[k], needle);
      var rest, s := PathTo(target.fields[k], needle);
      path, sub := [Field(k)] + rest, s;
    }
  }

  lemma {:induction false} PathIsDeep(target: Json, path: seq<PathStep>, sub: Json, needle: Json)
    requires SubtreeAt(target, path, sub) && MatchesSubset(sub, needle)
    ensures DeepContains(target, needle)
    decreases path
  {
    if path != [] {
      match path[0]
      case Index(i) => PathIsDeep(target.elems[i], path[1..], sub, needle);
      case Field(k) => PathIsDeep(target.fields[k], path[1..], sub, needle);
    }
  }

  // ---- a reference definition: each path of the needle has its place in the target ----

  /** Which element of a target array is taken for the needle's element at the end of a path. */
  type Choice = seq<PathStep> -> nat

  /** The choices below one step. */
  function Below(choice: Choice, s: PathStep): Choice {
    q => choice([s] + q)
  }

  function ImageStep(s: PathStep, choice: Choice): PathStep {
    if s.Index? then Index(choice([s])) else s
  }

  /** The target's path for a path of the needle: the same keys, and the chosen elements. */
  function Image(path: seq<PathStep>, choice: Choice): seq<PathStep>
    decreases |path|
  {
    if path == [] then []
    else [ImageStep(path[0], choice)] + Image(path[1..], Below(choice, path[0]))
  }

  /** The same kind of container, or the same scalar. */
  predicate Covers(t: Json, n: Json) {
    if n.Obj? then t.Obj? else if n.Arr? then t.Arr? else t == n
  }

  ghost predicate HasPlace(target: Json, choice: Choice, path: seq<PathStep>, n: Json) {
    exists t :: SubtreeAt(target, Image(path, choice), t) && Covers(t, n)
  }

  /** Whatever the needle has at some path, the target covers at that path's image. It may have more. */
  ghost predicate Fits(target: Json, needle: Json, choice: Choice) {
    forall path, n :: SubtreeAt(needle, path, n) ==> HasPlace(target, choice, path, n)
  }

  /** Subset matching, said without recursion: some choice of elements gives each path of the needle its place. */
  lemma SubsetIsFit(target: Json, needle: Json)
    ensures MatchesSubset(target, needle) <==> exists choice :: Fits(target, needle, choice)
  {
    if MatchesSubset(target, needle) {
      var choice := ChoiceOf(target, needle);
      forall path, n | SubtreeAt(needle, path, n)
        ensures HasPlace(target, choice, path, n)
      {
        PlaceOf(target, needle, path, n);
      }
      assert Fits(target, needle, choice);
    } else if choice :| Fits(target, needle, choice) {
      FitMatches(target, needle, choice);
    }
  }

  lemma {:induction false} FitMatches(target: Json, needle: Json, choice: Choice)
    requires Fits(target, needle, choice)
    ensures MatchesSubset(target, needle)
    decreases needle
  {
    assert SubtreeAt(needle, [], needle) && HasPlace(target, choice, [], needle);
    assert Covers(target, needle);
    match needle
    case Obj(fs) =>
      forall k | k in fs
        ensures k in target.fields && MatchesSubset(target.fields[k], fs[k])
      {
        OneStep(needle, Field(k), fs[k]);
        ChildFits(target, needle, choice, Field(k), fs[k]);
        var t :| SubtreeAt(target, [Field(k)], t) && Fits(t, fs[k], Below(choice, Field(k)));
        OneStep(target, Field(k), t);
        FitMatches(t, fs[k], Below(choice, Field(k)));
      }
    case Arr(ns) =>
      forall n | n in ns
        ensures exists t :: t in target.elems && MatchesSubset(t, n)
      {
        var i :| 0 <= i < |ns| && ns[i] == n;
        var j := choice([Index(i)]);
        OneStep(needle, Index(i), n);
        ChildFits(target, needle, choice, Index(i), n);
        var t :| SubtreeAt(target, [Index(j)], t) && Fits(t, n, Below(choice, Index(i)));
        OneStep(target, Index(j), t);
        FitMatches(t, n, Below(choice, Index(i)));
      }
    case _ =>
  }

  /** If a needle fits, so does each of its children, at the place chosen for it. */
  lemma ChildFits(target: Json, needle: Json, choice: Choice, s: PathStep, child: Json)
    requires Fits(target, needle, choice) && SubtreeAt(needle, [s], child)
    ensures exists t :: SubtreeAt(target, [ImageStep(s, choice)], t) && Fits(t, child, Below(choice, s))
  {
    var s' := ImageStep(s, choice);
    assert [s][1..] == [];
    assert Image([s], choice) == [s'];
    assert HasPlace(target, choice, [s], child);
    var t :| SubtreeAt(target, [s'], t);
    forall q, n | SubtreeAt(child, q, n)
      ensures HasPlace(t, Below(choice, s), q, n)
    {
      Onward(needle, s, child, q, n);
      assert ([s] + q)[1..] == q;
      assert HasPlace(target, choice, [s] + q, n);
      var image := Image(q, Below(choice, s));
      assert Image([s] + q, choice) == [s'] + image;
      var u :| SubtreeAt(target, [s'] + image, u) && Covers(u, n);
      Onward(target, s', t, image, u);
    }
    assert Fits(t, child, Below(choice, s));
  }

  lemma OneStep(j: Json, s: PathStep, t: Json)
    ensures SubtreeAt(j, [s], t)
       <==> match s
            case Index(i) => j.Arr? && i < |j.elems| && t == j.elems[i]
            case Field(k) => j.Obj? && k in j.fields && t == j.fields[k]
  {
    assert [s][1..] == [];
  }

  lemma Onward(j: Json, s: PathStep, t: Json, rest: seq<PathStep>, u: Json)
    requires SubtreeAt(j, [s], t)
    ensures SubtreeAt(j, [s] + rest, u) <==> SubtreeAt(t, rest, u)
  {
    OneStep(j, s, t);
    assert ([s] + rest)[1..] == rest;
  }

  ghost function Partner(ts: seq<Json>, n: Json): (j: nat)
    requires exists t :: t in ts && MatchesSubset(t, n)
    ensures j < |ts| && MatchesSubset(ts[j], n)
  {
    var t :| t in ts && MatchesSubset(t, n);
    var j :| 0 <= j < |ts| && ts[j] == t;
    j
  }

  /** The element that the recursive match takes at the end of `path`. */
  ghost function Chosen(target: Json, needle: Json, path: seq<PathStep>): nat
    requires MatchesSubset(target, needle)
    decreases |path|
  {
    if path == [] then 0
    else match path[0]
      case Field(k) =>
        if needle.Obj? && k in needle.fields then Chosen(target.fields[k], needle.fields[k], path[1..]) else 0
      case Index(i) =>
        if needle.Arr? && i < |needle.elems| then
          var n := needle.elems[i];
          assert n in needle.elems;
          var j := Partner(target.elems, n);
          if |path| == 1 then j else Chosen(target.elems[j], n, path[1..])
        else 0
  }

  ghost function ChoiceOf(target: Json, needle: Json): Choice
    requires MatchesSubset(target, needle)
  {
    path => Chosen(target, needle, path)
  }

  lemma {:induction false} ImageSame(path: seq<PathStep>, a: Choice, b: Choice)
    requires forall q :: q != [] ==> a(q) == b(q)
    ensures Image(path, a) == Image(path, b)
    decreases |path|
  {
    if path != [] {
      ImageSame(path[1..], Below(a, path[0]), Below(b, path[0]));
    }
  }

  lemma {:induction false} PlaceOf(target: Json, needle: Json, path: seq<PathStep>, n: Json)
    requires MatchesSubset(target, needle) && SubtreeAt(needle, path, n)
    ensures HasPlace(target, ChoiceOf(target, needle), path, n)
    decreases |path|
  {
    var choice := ChoiceOf(target, needle);
    if path == [] {
      assert SubtreeAt(target, Image(path, choice), target);
    } else {
      var s := path[0];
      var j := choice([s]);
      var t', n', s' :=
        if s.Field? then target.fields[s.key] else target.elems[j],
        if s.Field? then needle.fields[s.key] else needle.elems[s.i],
        if s.Field? then s else Index(j);
      PlaceOf(t', n', path[1..], n);
      var rest := Image(path[1..], ChoiceOf(t', n'));
      forall q: seq<PathStep> | q != []
        ensures Below(choice, s)(q) == ChoiceOf(t', n')(q)
      {
        assert ([s] + q)[1..] == q;
      }
      ImageSame(path[1..], Below(choice, s), ChoiceOf(t', n'));
      assert Image(path, choice) == [s'] + rest && ([s'] + rest)[1..] == rest;
      var u :| SubtreeAt(t', rest, u) && Covers(u, n);
      assert SubtreeAt(target, [s'] + rest, u);
    }
  }
}
