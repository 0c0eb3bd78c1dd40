/**
 Variables that name different schema leaves do not interfere: their order is irrelevant, each writes its own leaf,
 and a rejected one writes none.
 */
module EnvLaws {
  import opened Options
  import opened EnvOverrides

  predicate Prefix(a: seq<string>, b: seq<string>) {
    |a| <= |b| && a == b[..|a|]
  }

  /** Neither path runs through the other's end. */
  predicate Apart(a: seq<string>, b: seq<string>) {
    !Prefix(a, b) && !Prefix(b, a)
  }

  function PathOf(o: Override): seq<string>
    requires o.target.key.Some?
  {
    o.target.sections + [o.target.key.value]
  }

  // ---- schema leaves are apart ----

  /** `path` leads through sections of the key map to a leaf. */
  ghost predicate LeafPath(entries: seq<(string, KeyMap)>, path: seq<string>)
    decreases |path|, 1
  {
    path != [] && exists i :: 0 <= i < |entries| && LeadsOn(entries[i], path)
  }

  ghost predicate LeadsOn(e: (string, KeyMap), path: seq<string>)
    requires path != []
    decreases |path|, 0
  {
    if |path| == 1 then e.1 == Leaf(path[0])
    else e.0 == path[0] && e.1.Section? && LeafPath(e.1.entries, path[1..])
  }

  /** Property names of one object are distinct, sections and leaves alike. */
  ghost predicate DistinctNames(entries: seq<(string, KeyMap)>)
    decreases Section(entries)
  {
    && NamesApart(entries)
    && (forall i :: 0 <= i < |entries| && entries[i].1.Section? ==> DistinctNames(entries[i].1.entries))
  }

  ghost predicate NamesApart(entries: seq<(string, KeyMap)>) {
    forall i, j :: 0 <= i < j < |entries| ==> NameOf(entries[i]) != NameOf(entries[j])
  }

  /** At every level a leaf is filed under its own name in lower case. */
  ghost predicate Filed(entries: seq<(string, KeyMap)>)
    decreases Section(entries)
  {
    forall i :: 0 <= i < |entries| ==>
      if entries[i].1.Leaf? then entries[i].0 == Lower(entries[i].1.name) else Filed(entries[i].1.entries)
  }

  function NameOf(e: (string, KeyMap)): string {
    if e.1.Leaf? then e.1.name else e.0
  }

  predicate DistinctProperties(schema: Schema) {
    match schema
    case Scalar => true
    case Optional(inner) => DistinctProperties(inner)
    case ArrayOf(element) => DistinctProperties(element)
    case Object(shape) =>
      && (forall i, j :: 0 <= i < j < |shape| ==> shape[i].0 != shape[j].0)
      && (forall p :: p in shape ==> DistinctProperties(p.1))
  }

  /**
   The key map of a schema has distinct names at every level, although keys that differ in case only, or that are
   a section's key in lower case, displace one another.
   */
  lemma {:induction false} KeyMapNames(schema: Schema)
    requires DistinctProperties(schema)
    ensures DistinctNames(KeyMapOf(schema)) && Filed(KeyMapOf(schema))
    decreases schema
  {
    match schema
    case Scalar =>
    case Optional(inner) => KeyMapNames(inner);
    case ArrayOf(element) => KeyMapNames(element);
    case Object(shape) =>
      EntryNames(shape, schema);
      assert forall e :: e in EntriesOf(shape, schema) && e.1.Leaf? ==> e.0 == Lower(e.1.name);
      forall e | e in EntriesOf(shape, schema) && e.1.Section?
        ensures DistinctNames(e.1.entries) && Filed(e.1.entries)
      {
        var p :| p in shape && EntryFor(e, p);
        KeyMapNames(p.1);
      }
  }

  /** The entry that a property makes, if no later one displaces it. */
  predicate EntryFor(e: (string, KeyMap), p: (string, Schema)) {
    NameOf(e) == p.0 && if e.1.Leaf? then e.0 == Lower(p.0) && KeyMapOf(p.1) == [] else e.1.entries == KeyMapOf(p.1)
  }

  lemma {:induction false} EntryNames(shape: seq<(string, Schema)>, whole: Schema)
    requires forall p :: p in shape ==> p.1 < whole
    requires forall i, j :: 0 <= i < j < |shape| ==> shape[i].0 != shape[j].0
    ensures var es := EntriesOf(shape, whole);
            NamesApart(es) && forall e :: e in es ==> exists p :: p in shape && EntryFor(e, p)
    decreases |shape|
  {
    if shape != [] {
      var front, p := shape[..|shape| - 1], shape[|shape| - 1];
      assert shape == front + [p];
      EntryNames(front, whole);
      var nested := KeyMapOf(p.1);
      var e := if nested != [] then (p.0, Section(nested)) else (Lower(p.0), Leaf(p.0));
      assert EntryFor(e, p);
      forall x | x in EntriesOf(front, whole)
        ensures NameOf(x) != p.0 && exists q :: q in shape && EntryFor(x, q)
      {
        var q :| q in front && EntryFor(x, q);
      }
      PutNames(EntriesOf(front, whole), e.0, e.1);
    }
  }

  lemma {:induction false} PutNames(entries: seq<(string, KeyMap)>, key: string, value: KeyMap)
    requires NamesApart(entries) && forall e :: e in entries ==> NameOf(e) != NameOf((key, value))
    ensures NamesApart(Put(entries, key, value))
    ensures forall e :: e in Put(entries, key, value) ==> e == (key, value) || e in entries
    decreases |entries|
  {
    if entries != [] {
      var rest := entries[1..];
      assert entries == [entries[0]] + rest;
      assert forall e :: e in rest ==> NameOf(entries[0]) != NameOf(e);
      if entries[0].0 == key {
        ConsNames((key, value), rest);
      } else {
        PutNames(rest, key, value);
        ConsNames(entries[0], Put(rest, key, value));
      }
    }
  }

  lemma ConsNames(e: (string, KeyMap), entries: seq<(string, KeyMap)>)
    requires NamesApart(entries) && forall x :: x in entries ==> NameOf(e) != NameOf(x)
    ensures NamesApart([e] + entries)
  {
  }

  lemma {:induction false} LeavesAreApart(entries: seq<(string, KeyMap)>, a: seq<string>, b: seq<string>)
    requires DistinctNames(entries) && LeafPath(entries, a) && LeafPath(entries, b) && a != b
    ensures Apart(a, b)
    decreases |a|
  {
    var i := HeadEntry(entries, a);
    var j := HeadEntry(entries, b);
    if a[0] == b[0] {
      assert i == j;
      if |a| > 1 {
        LeavesAreApart(entries[i].1.entries, a[1..], b[1..]);
        if Prefix(a, b) { PrefixTail(a, b); }
        if Prefix(b, a) { PrefixTail(b, a); }
      }
    }
  }

  lemma PrefixTail(a: seq<string>, b: seq<string>)
    requires a != [] && b != [] && Prefix(a, b)
    ensures Prefix(a[1..], b[1..])
  {
    assert b[..|a|][1..] == b[1..][..|a| - 1];
  }

  lemma HeadEntry(entries: seq<(string, KeyMap)>, path: seq<string>) returns (i: nat)
    requires LeafPath(entries, path)
    ensures i < |entries| && NameOf(entries[i]) == path[0] && (entries[i].1.Leaf? <==> |path| == 1)
    ensures |path| > 1 ==> LeafPath(entries[i].1.entries, path[1..])
  {
    i :| 0 <= i < |entries| && LeadsOn(entries[i], path);
  }

  /** The segments lead to a schema leaf. */
  predicate NamesLeaf(entries: seq<(string, KeyMap)>, parts: seq<string>)
    requires parts != []
    decreases |parts|
  {
    if |parts| == 1 then (match Under(entries, Lower(parts[0])) case Some(Leaf(_)) => true case _ => false)
    else
      var i := Find(entries, parts[0]);
      i.Some? && entries[i.value].0 != "" && entries[i.value].1.Section? && NamesLeaf(entries[i.value].1.entries, parts[1..])
  }

  lemma {:induction false} UnderIndex(entries: seq<(string, KeyMap)>, key: string) returns (i: nat)
    requires Under(entries, key).Some?
    ensures i < |entries| && entries[i] == (key, Under(entries, key).value)
  {
    if entries[0].0 == key {
      i := 0;
    } else {
      var j := UnderIndex(entries[1..], key);
      i := j + 1;
    }
  }

  /** The same segments, case aside. */
  predicate SameNames(a: seq<string>, b: seq<string>) {
    |a| == |b| && forall i :: 0 <= i < |a| ==> Lower(a[i]) == Lower(b[i])
  }

  lemma {:induction false} LowerTwice(s: string)
    ensures Lower(Lower(s)) == Lower(s)
  {
    if s != "" {
      LowerTwice(s[1..]);
    }
  }

  /** Such a variable resolves to the path of a leaf of those names, case aside. */
  lemma {:induction false} ResolvesToLeaf(entries: seq<(string, KeyMap)>, parts: seq<string>)
    requires parts != [] && Filed(entries) && NamesLeaf(entries, parts)
    ensures var t := Resolve(entries, parts);
            t.key.Some? && LeafPath(entries, t.sections + [t.key.value]) && SameNames(t.sections + [t.key.value], parts)
    decreases |parts|
  {
    if |parts| == 1 {
      var i := UnderIndex(entries, Lower(parts[0]));
      var path := [KeyFor(entries, parts[0])];
      assert LeadsOn(entries[i], path);
      assert [] + path == path;
      LowerTwice(parts[0]);
    } else {
      var i := Find(entries, parts[0]).value;
      ResolvesToLeaf(entries[i].1.entries, parts[1..]);
      var below := Resolve(entries[i].1.entries, parts[1..]);
      var rest := below.sections + [below.key.value];
      var path := [entries[i].0] + below.sections + [below.key.value];
      assert SameNames(path, parts) by {
        assert forall k :: 1 <= k < |parts| ==> path[k] == rest[k - 1] && parts[k] == parts[1..][k - 1];
      }
      assert path[1..] == rest && path[0] == entries[i].0;
      assert LeadsOn(entries[i], path);
    }
  }

  /** Two variables that name leaves write to paths that are equal or apart. */
  lemma VariablesAreApart(entries: seq<(string, KeyMap)>, a: seq<string>, b: seq<string>)
    requires DistinctNames(entries) && Filed(entries) && a != [] && b != [] && NamesLeaf(entries, a) && NamesLeaf(entries, b)
    ensures var s, t := Resolve(entries, a), Resolve(entries, b);
            && s.key.Some? && t.key.Some?
            && (s == t || Apart(s.sections + [s.key.value], t.sections + [t.key.value]))
  {
    ResolvesToLeaf(entries, a);
    ResolvesToLeaf(entries, b);
    var s, t := Resolve(entries, a), Resolve(entries, b);
    var p, q := s.sections + [s.key.value], t.sections + [t.key.value];
    if p != q {
      LeavesAreApart(entries, p, q);
    } else {
      assert s.sections == p[..|p| - 1] && t.sections == q[..|q| - 1];
    }
  }

  // ---- two variables commute ----

  lemma {:induction false} Commute(c: Config, a: seq<string>, la: string, va: Value, b: seq<string>, lb: string, vb: Value)
    requires Apart(a + [la], b + [lb])
    ensures Apply(Apply(c, a, Some(la), va), b, Some(lb), vb) == Apply(Apply(c, b, Some(lb), vb), a, Some(la), va)
    decreases |a|
  {
    if a != [] && b != [] && a[0] == b[0] {
      var k := a[0];
      ApartTails(a, la, b, lb);
      if Below(c, k).Some? {
        Commute(Below(c, k).value.fields, a[1..], la, va, b[1..], lb, vb);
        SameHead(c, k, Below(c, k).value, a, la, va, b, lb, vb);
      }
    } else {
      HeadsDiffer(a, la, b, lb);
      TwoHeads(c, a, la, va, b, lb, vb);
    }
  }

  lemma StepIn(c: Config, node: Value, a: seq<string>, la: string, v: Value)
    requires a != [] && Below(c, a[0]) == Some(node)
    ensures var node' := node.(fields := Apply(node.fields, a[1..], Some(la), v));
            Apply(c, a, Some(la), v) == c[a[0] := node'] && Below(Apply(c, a, Some(la), v), a[0]) == Some(node')
  {
  }

  lemma SameHead(c: Config, k: string, node: Value,
                 a: seq<string>, la: string, va: Value, b: seq<string>, lb: string, vb: Value)
    requires a != [] && b != [] && a[0] == b[0] == k && Below(c, k) == Some(node)
    requires Apply(Apply(node.fields, a[1..], Some(la), va), b[1..], Some(lb), vb)
          == Apply(Apply(node.fields, b[1..], Some(lb), vb), a[1..], Some(la), va)
    ensures Apply(Apply(c, a, Some(la), va), b, Some(lb), vb) == Apply(Apply(c, b, Some(lb), vb), a, Some(la), va)
  {
    StepIn(c, node, a, la, va);
    StepIn(c, node, b, lb, vb);
    StepIn(Apply(c, a, Some(la), va), node.(fields := Apply(node.fields, a[1..], Some(la), va)), b, lb, vb);
    StepIn(Apply(c, b, Some(lb), vb), node.(fields := Apply(node.fields, b[1..], Some(lb), vb)), a, la, va);
  }

  /** What a variable writes is confined to the entry of its first segment, and depends on that entry alone. */
  function Written(old': Option<Value>, sections: seq<string>, key: string, v: Value): Option<Value> {
    if sections == [] then Some(v)
    else match Below(if old'.Some? then map[key := old'.value] else map[], key)
      case None => old'
      case Some(node) => Some(node.(fields := Apply(node.fields, sections[1..], Some(key), v)))
  }

  function Entry(c: Config, k: string): Option<Value> {
    if k in c then Some(c[k]) else None
  }

  lemma OnlyTheHead(c: Config, a: seq<string>, la: string, v: Value)
    ensures var h := (a + [la])[0]; var w := Written(Entry(c, h), a, la, v);
            w.Some? && Apply(c, a, Some(la), v) == c[h := w.value]
  {
    assert a != [] ==> (a + [la])[0] == a[0];
  }

  lemma TwoHeads(c: Config, a: seq<string>, la: string, va: Value, b: seq<string>, lb: string, vb: Value)
    requires (a + [la])[0] != (b + [lb])[0]
    ensures Apply(Apply(c, a, Some(la), va), b, Some(lb), vb) == Apply(Apply(c, b, Some(lb), vb), a, Some(la), va)
  {
    OnlyTheHead(c, a, la, va);
    OnlyTheHead(c, b, lb, vb);
    OnlyTheHead(Apply(c, a, Some(la), va), b, lb, vb);
    OnlyTheHead(Apply(c, b, Some(lb), vb), a, la, va);
  }

  lemma HeadsDiffer(a: seq<string>, la: string, b: seq<string>, lb: string)
    requires Apart(a + [la], b + [lb]) && (a == [] || b == [] || a[0] != b[0])
    ensures (a + [la])[0] != (b + [lb])[0]
  {
    assert (b + [lb])[..1] == [(b + [lb])[0]];
    assert (a + [la])[..1] == [(a + [la])[0]];
  }

  lemma ApartTails(a: seq<string>, la: string, b: seq<string>, lb: string)
    requires Apart(a + [la], b + [lb]) && a != [] && b != [] && a[0] == b[0]
    ensures Apart(a[1..] + [la], b[1..] + [lb])
  {
    assert a + [la] == [a[0]] + (a[1..] + [la]);
    assert b + [lb] == [b[0]] + (b[1..] + [lb]);
  }

  /** Of two values for one leaf the later one stays, and nothing else of the earlier one does. */
  lemma {:induction false} LastOneWins(c: Config, sections: seq<string>, key: string, v: Value, w: Value)
    ensures Apply(Apply(c, sections, Some(key), v), sections, Some(key), w) == Apply(c, sections, Some(key), w)
    decreases |sections|
  {
    if sections != [] {
      var below := Below(c, sections[0]);
      if below.Some? {
        var node' := below.value.(fields := Apply(below.value.fields, sections[1..], Some(key), v));
        StepIn(c, below.value, sections, key, v);
        StepIn(c, below.value, sections, key, w);
        StepIn(Apply(c, sections, Some(key), v), node', sections, key, w);
        LastOneWins(below.value.fields, sections[1..], key, v, w);
      }
    }
  }

  // ---- any order ----

  ghost predicate Independent(os: seq<Override>) {
    && (forall o :: o in os ==> o.target.key.Some?)
    && (forall i, j :: 0 <= i < j < |os| ==> Apart(PathOf(os[i]), PathOf(os[j])))
  }

  lemma {:induction false} ToFront(c: Config, os: seq<Override>, o: Override)
    requires o.target.key.Some? && forall x :: x in os ==> x.target.key.Some? && Apart(PathOf(x), PathOf(o))
    ensures ApplyAll(c, os + [o]) == ApplyAll(ApplyOne(c, o), os)
    decreases |os|
  {
    if os == [] {
      assert os + [o] == [o] && [o][1..] == [];
    } else {
      var x := os[0];
      assert (os + [o])[1..] == os[1..] + [o];
      ToFront(ApplyOne(c, x), os[1..], o);
      Commute(c, x.target.sections, x.target.key.value, x.value, o.target.sections, o.target.key.value, o.value);
    }
  }

  lemma {:induction false} ApplyAllConcat(c: Config, a: seq<Override>, b: seq<Override>)
    ensures ApplyAll(c, a + b) == ApplyAll(ApplyAll(c, a), b)
    decreases |a|
  {
    if a == [] {
      assert a + b == b;
    } else {
      assert (a + b)[1..] == a[1..] + b;
      ApplyAllConcat(ApplyOne(c, a[0]), a[1..], b);
    }
  }

  lemma WithoutOne(os: seq<Override>, i: nat)
    requires Independent(os) && i < |os|
    ensures Independent(os[..i] + os[i + 1..])
  {
    var rest := os[..i] + os[i + 1..];
    forall j, k | 0 <= j < k < |rest|
      ensures Apart(PathOf(rest[j]), PathOf(rest[k]))
    {
      var j', k' := if j < i then j else j + 1, if k < i then k else k + 1;
      assert rest[j] == os[j'] && rest[k] == os[k'];
    }
  }

  lemma Extract(c: Config, os: seq<Override>, i: nat)
    requires Independent(os) && i < |os|
    ensures ApplyAll(c, os) == ApplyAll(ApplyOne(c, os[i]), os[..i] + os[i + 1..])
  {
    var front, o, back := os[..i], os[i], os[i + 1..];
    assert os == (front + [o]) + back;
    ApplyAllConcat(c, front + [o], back);
    forall x | x in front
      ensures x.target.key.Some? && Apart(PathOf(x), PathOf(o))
    {
      var j :| 0 <= j < i && os[j] == x;
    }
    ToFront(c, front, o);
    ApplyAllConcat(ApplyOne(c, o), front, back);
  }

  lemma SameRest<T>(a: seq<T>, b: seq<T>, i: nat)
    requires multiset(a) == multiset(b) && a != [] && i < |b| && b[i] == a[0]
    ensures multiset(a[1..]) == multiset(b[..i] + b[i + 1..])
  {
    assert a == [a[0]] + a[1..];
    assert b == b[..i] + [b[i]] + b[i + 1..];
    assert multiset(a[1..]) == multiset(a) - multiset{a[0]};
    assert multiset(b[..i] + b[i + 1..]) == multiset(b) - multiset{a[0]};
  }

  lemma {:induction false} IndependentInAnyOrder(c: Config, a: seq<Override>, b: seq<Override>)
    requires Independent(a) && Independent(b) && multiset(a) == multiset(b)
    ensures ApplyAll(c, a) == ApplyAll(c, b)
    decreases |a|
  {
    if a == [] {
      assert |multiset(b)| == 0;
    } else {
      assert a[0] in multiset(b);
      var i :| 0 <= i < |b| && b[i] == a[0];
      Extract(c, b, i);
      WithoutOne(b, i);
      WithoutOne(a, 0);
      assert a[..0] + a[1..] == a[1..];
      SameRest(a, b, i);
      IndependentInAnyOrder(ApplyOne(c, a[0]), a[1..], b[..i] + b[i + 1..]);
    }
  }

  // ---- from a schema and its variables ----

  /** Every variable that takes part names a schema leaf, and no two name the same. */
  ghost predicate NameDistinctLeaves(s: Setting, env: seq<Variable>) {
    && (forall v :: v in env && TakesPart(s, v) ==> NamesLeaf(s.entries, Parts(s, v)))
    && (forall i, j :: 0 <= i < j < |env| && TakesPart(s, env[i]) && TakesPart(s, env[j]) ==>
          OverrideOf(s, env[i]).target != OverrideOf(s, env[j]).target)
  }

  lemma {:induction false} OverrideMembers(s: Setting, env: seq<Variable>)
    ensures forall o :: o in Overrides(s, env) <==> exists v :: v in env && TakesPart(s, v) && o == OverrideOf(s, v)
    decreases |env|
  {
    if env != [] {
      OverrideMembers(s, env[1..]);
      assert env == [env[0]] + env[1..];
    }
  }

  /** Such variables write to leaves of the schema, all apart. */
  lemma {:induction false} VariablesAreIndependent(s: Setting, env: seq<Variable>)
    requires DistinctNames(s.entries) && Filed(s.entries) && NameDistinctLeaves(s, env)
    ensures Independent(Overrides(s, env))
    ensures forall o :: o in Overrides(s, env) ==> LeafPath(s.entries, PathOf(o))
    decreases |env|
  {
    if env != [] {
      var v, rest := env[0], env[1..];
      VariablesAreIndependent(s, rest);
      OverrideMembers(s, rest);
      if TakesPart(s, v) {
        ResolvesToLeaf(s.entries, Parts(s, v));
        forall o | o in Overrides(s, rest)
          ensures Apart(PathOf(OverrideOf(s, v)), PathOf(o))
        {
          var w :| w in rest && TakesPart(s, w) && o == OverrideOf(s, w);
          VariablesAreApart(s.entries, Parts(s, v), Parts(s, w));
        }
        IndependentCons(OverrideOf(s, v), Overrides(s, rest));
      }
    }
  }

  lemma IndependentCons(o: Override, os: seq<Override>)
    requires o.target.key.Some? && Independent(os) && forall x :: x in os ==> Apart(PathOf(o), PathOf(x))
    ensures Independent([o] + os)
  {
  }

  lemma {:induction false} OverridesConcat(s: Setting, a: seq<Variable>, b: seq<Variable>)
    ensures Overrides(s, a + b) == Overrides(s, a) + Overrides(s, b)
    decreases |a|
  {
    if a == [] {
      assert a + b == b;
    } else {
      assert (a + b)[1..] == a[1..] + b;
      OverridesConcat(s, a[1..], b);
    }
  }

  lemma {:induction false} PermutedOverrides(s: Setting, a: seq<Variable>, b: seq<Variable>)
    requires multiset(a) == multiset(b)
    ensures multiset(Overrides(s, a)) == multiset(Overrides(s, b))
    decreases |a|
  {
    if a == [] {
      assert |multiset(b)| == 0;
    } else {
      assert a[0] in multiset(b);
      var i :| 0 <= i < |b| && b[i] == a[0];
      SameRest(a, b, i);
      PermutedOverrides(s, a[1..], b[..i] + b[i + 1..]);
      OneOutside(s, a, 0);
      OneOutside(s, b, i);
      assert a[..0] + a[1..] == a[1..];
    }
  }

  lemma OneOutside(s: Setting, env: seq<Variable>, i: nat)
    requires i < |env|
    ensures multiset(Overrides(s, env))
         == multiset(Overrides(s, [env[i]])) + multiset(Overrides(s, env[..i] + env[i + 1..]))
  {
    var front, back := env[..i], env[i + 1..];
    assert env == front + ([env[i]] + back);
    OverridesConcat(s, front, [env[i]] + back);
    OverridesConcat(s, [env[i]], back);
    OverridesConcat(s, front, back);
  }

  /** Variables that name different leaves of a schema give the same configuration in whatever order they are read. */
  lemma OrderIsIrrelevant(schema: Schema, s: Setting, c: Config, a: seq<Variable>, b: seq<Variable>)
    requires DistinctProperties(schema) && s.entries == KeyMapOf(schema)
    requires NameDistinctLeaves(s, a) && NameDistinctLeaves(s, b) && multiset(a) == multiset(b)
    ensures ApplyAll(c, Overrides(s, a)) == ApplyAll(c, Overrides(s, b))
  {
    KeyMapNames(schema);
    VariablesAreIndependent(s, a);
    VariablesAreIndependent(s, b);
    PermutedOverrides(s, a, b);
    IndependentInAnyOrder(c, Overrides(s, a), Overrides(s, b));
  }

  // ---- what one variable changes ----

  function At(c: Config, path: seq<string>): Value
    requires path != []
    decreases |path|
  {
    if path[0] !in c then Undefined
    else if |path| == 1 then c[path[0]]
    else if c[path[0]].Node? then At(c[path[0]].fields, path[1..])
    else Undefined
  }

  /** A section on the way is there but not an object. */
  predicate Conflict(c: Config, sections: seq<string>)
    decreases |sections|
  {
    sections != [] && sections[0] in c && c[sections[0]] != Undefined
    && (!c[sections[0]].Node? || Conflict(c[sections[0]].fields, sections[1..]))
  }

  lemma EmptyHasNoConflict(sections: seq<string>)
    ensures !Conflict(map[], sections)
  {
  }

  /** The variable's own leaf holds its value afterwards exactly if no section conflicts; else nothing at all changes. */
  lemma {:induction false} OwnLeaf(c: Config, sections: seq<string>, key: string, v: Value)
    ensures !Conflict(c, sections) ==> At(Apply(c, sections, Some(key), v), sections + [key]) == v
    ensures Conflict(c, sections) ==> Apply(c, sections, Some(key), v) == c
    decreases |sections|
  {
    if sections != [] {
      var k := sections[0];
      assert (sections + [key])[1..] == sections[1..] + [key];
      if Below(c, k).Some? {
        OwnLeaf(Below(c, k).value.fields, sections[1..], key, v);
        EmptyHasNoConflict(sections[1..]);
      }
    }
  }

  /** Everything at a path apart from the variable's own is untouched, whether or not it is accepted. */
  lemma {:induction false} OtherPathsUntouched(c: Config, sections: seq<string>, key: string, v: Value, path: seq<string>)
    requires path != [] && Apart(path, sections + [key])
    ensures At(Apply(c, sections, Some(key), v), path) == At(c, path)
    decreases |sections|
  {
    if sections == [] {
      assert path[..1] == [path[0]];
    } else if path[0] == sections[0] {
      var k := sections[0];
      assert (sections + [key])[..1] == [path[0]];
      assert sections + [key] == [k] + (sections[1..] + [key]) && path == [k] + path[1..];
      assert Apart(path[1..], sections[1..] + [key]);
      if Below(c, k).Some? {
        OtherPathsUntouched(Below(c, k).value.fields, sections[1..], key, v, path[1..]);
      }
    }
  }

  lemma {:induction false} AllOtherPathsUntouched(c: Config, os: seq<Override>, path: seq<string>)
    requires path != [] && forall o :: o in os ==> o.target.key.Some? && Apart(path, PathOf(o))
    ensures At(ApplyAll(c, os), path) == At(c, path)
    decreases |os|
  {
    if os != [] {
      OtherPathsUntouched(c, os[0].target.sections, os[0].target.key.value, os[0].value, path);
      AllOtherPathsUntouched(ApplyOne(c, os[0]), os[1..], path);
    }
  }

  /** The path of any one override, after all of them. */
  lemma AtTheEnd(c: Config, os: seq<Override>, i: nat)
    requires Independent(os) && i < |os|
    ensures At(ApplyAll(c, os), PathOf(os[i]))
         == if Conflict(c, os[i].target.sections) then At(c, PathOf(os[i])) else os[i].value
  {
    var o, rest := os[i], os[..i] + os[i + 1..];
    Extract(c, os, i);
    forall x | x in rest
      ensures x.target.key.Some? && Apart(PathOf(o), PathOf(x))
    {
      var j :| 0 <= j < |os| && j != i && os[j] == x;
    }
    AllOtherPathsUntouched(ApplyOne(c, o), rest, PathOf(o));
    OwnLeaf(c, o.target.sections, o.target.key.value, o.value);
  }

  predicate Writes(s: Setting, v: Variable, leaf: seq<string>) {
    && TakesPart(s, v) && OverrideOf(s, v).target.key.Some? && PathOf(OverrideOf(s, v)) == leaf
  }

  /**
   What the environment makes of a configuration, leaf by leaf of the schema: a leaf that a variable names holds its
   value, unless a section on the way conflicts; every other leaf is as it was.
   */
  lemma EveryLeaf(schema: Schema, s: Setting, c: Config, env: seq<Variable>, leaf: seq<string>)
    requires DistinctProperties(schema) && s.entries == KeyMapOf(schema)
    requires NameDistinctLeaves(s, env) && LeafPath(s.entries, leaf)
    ensures var end := ApplyAll(c, Overrides(s, env));
            && (forall v :: v in env && Writes(s, v, leaf) ==>
                  At(end, leaf) == if Conflict(c, OverrideOf(s, v).target.sections) then At(c, leaf)
                                   else s.parse(v.value.value))
            && ((forall v :: v in env ==> !Writes(s, v, leaf)) ==> At(end, leaf) == At(c, leaf))
  {
    KeyMapNames(schema);
    VariablesAreIndependent(s, env);
    OverrideMembers(s, env);
    var os := Overrides(s, env);
    forall v | v in env && Writes(s, v, leaf)
      ensures At(ApplyAll(c, os), leaf) == if Conflict(c, OverrideOf(s, v).target.sections) then At(c, leaf)
                                           else s.parse(v.value.value)
    {
      assert OverrideOf(s, v) in os;
      var i :| 0 <= i < |os| && os[i] == OverrideOf(s, v);
      AtTheEnd(c, os, i);
    }
    if forall v :: v in env ==> !Writes(s, v, leaf) {
      forall o | o in os
        ensures Apart(leaf, PathOf(o))
      {
        var v :| v in env && TakesPart(s, v) && o == OverrideOf(s, v);
        assert !Writes(s, v, leaf);
        LeavesAreApart(s.entries, leaf, PathOf(o));
      }
      AllOtherPathsUntouched(c, os, leaf);
    }
  }

  // ---- a rejected variable ----

  predicate IsLeafValue(j: Value) {
    j.Plain?
  }

  /** An unknown segment writes no leaf anywhere, though the sections before it may have been created, empty. */
  lemma {:induction false} UnknownSegment(c: Config, sections: seq<string>, v: Value, path: seq<string>, leaf: Value)
    requires path != [] && IsLeafValue(leaf)
    ensures At(Apply(c, sections, None, v), path) == leaf <==> At(c, path) == leaf
    decreases |sections|
  {
    if sections != [] && path[0] == sections[0] && |path| > 1 {
      var k := sections[0];
      if Below(c, k).Some? {
        UnknownSegment(Below(c, k).value.fields, sections[1..], v, path[1..], leaf);
      }
    }
  }

  predicate HasSections(c: Config, sections: seq<string>)
    decreases |sections|
  {
    sections == [] || (sections[0] in c && c[sections[0]].Node? && HasSections(c[sections[0]].fields, sections[1..]))
  }

  /** A variable with an unknown segment changes nothing exactly if a section conflicts or none was missing. */
  lemma {:induction false} EmptySectionLeftBehind(c: Config, sections: seq<string>, v: Value)
    ensures Apply(c, sections, None, v) == c <==> Conflict(c, sections) || HasSections(c, sections)
    ensures !Conflict(c, sections) ==> HasSections(Apply(c, sections, None, v), sections)
    decreases |sections|
  {
    if sections != [] {
      var k := sections[0];
      if Below(c, k).Some? {
        var fields := Below(c, k).value.fields;
        EmptySectionLeftBehind(fields, sections[1..], v);
        EmptyHasNoConflict(sections[1..]);
        assert Apply(c, sections, None, v)[k] == Below(c, k).value.(fields := Apply(fields, sections[1..], None, v));
        if k in c && c[k].Node? && Apply(fields, sections[1..], None, v) == fields {
          assert Apply(c, sections, None, v) == c;
        }
      }
    }
  }
}
