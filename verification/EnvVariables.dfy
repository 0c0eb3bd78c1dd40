/**
 Which variable sets which leaf: a schema's leaves, the key map that files them, and the spelling of their variables.
 */
module EnvVariables {
  import opened Options
  import opened EnvOverrides
  import opened EnvLaws

  // ---- from a schema leaf to its variable ----

  predicate SameLetter(x: char, y: char) {
    x == y || ('A' <= x <= 'Z' && y as int == x as int + 32) || ('A' <= y <= 'Z' && x as int == y as int + 32)
  }

  /** Equal but for the case of letters. */
  predicate AnyCase(a: string, b: string) {
    |a| == |b| && forall i :: 0 <= i < |a| ==> SameLetter(a[i], b[i])
  }

  lemma {:induction false} LowerIffAnyCase(a: string, b: string)
    ensures Lower(a) == Lower(b) <==> AnyCase(a, b)
  {
    LowerLength(a);
    LowerLength(b);
    if a != "" && b != "" {
      LowerIffAnyCase(a[1..], b[1..]);
      assert LowerChar(a[0]) == LowerChar(b[0]) <==> SameLetter(a[0], b[0]);
      assert Lower(a)[0] == LowerChar(a[0]) && Lower(b)[0] == LowerChar(b[0]);
      assert Lower(a)[1..] == Lower(a[1..]) && Lower(b)[1..] == Lower(b[1..]);
      assert Lower(a) == [LowerChar(a[0])] + Lower(a[1..]) && Lower(b) == [LowerChar(b[0])] + Lower(b[1..]);
      AnyCaseTail(a, b);
    }
  }

  lemma AnyCaseTail(a: string, b: string)
    requires a != "" && b != ""
    ensures AnyCase(a, b) <==> SameLetter(a[0], b[0]) && AnyCase(a[1..], b[1..])
  {
    if SameLetter(a[0], b[0]) && AnyCase(a[1..], b[1..]) {
      forall i | 0 <= i < |a|
        ensures SameLetter(a[i], b[i])
      {
        if i > 0 { assert a[i] == a[1..][i - 1] && b[i] == b[1..][i - 1]; }
      }
    }
  }

  lemma {:induction false} LowerLength(s: string)
    ensures |Lower(s)| == |s|
  {
    if s != "" { LowerLength(s[1..]); }
  }

  lemma {:induction false} LowerConcat(a: string, b: string)
    ensures Lower(a + b) == Lower(a) + Lower(b)
    decreases |a|
  {
    if a == "" {
      assert a + b == b;
    } else {
      assert (a + b)[1..] == a[1..] + b;
      LowerConcat(a[1..], b);
    }
  }

  predicate NoUnderscore(parts: seq<string>) {
    forall i :: 0 <= i < |parts| ==> '_' !in parts[i]
  }

  lemma {:induction false} SplitCons(part: string, s: string)
    requires '_' !in part
    ensures Split(part) == [part] && Split(part + "_" + s) == [part] + Split(s)
    decreases |part|
  {
    var t := part + "_" + s;
    if part == "" {
      assert t == "_" + s && t[1..] == s;
    } else {
      SplitCons(part[1..], s);
      assert part == [part[0]] + part[1..];
      assert t[1..] == part[1..] + "_" + s;
    }
  }

  /** Splitting undoes joining names without underscores; `Split` itself promises the other direction. */
  lemma {:induction false} SplitOfJoin(parts: seq<string>)
    requires parts != [] && NoUnderscore(parts)
    ensures Split(Join(parts)) == parts
    decreases |parts|
  {
    if |parts| == 1 {
      SplitCons(parts[0], "");
    } else {
      SplitOfJoin(parts[1..]);
      SplitCons(parts[0], Join(parts[1..]));
    }
  }

  function LowerAll(parts: seq<string>): (r: seq<string>)
    ensures |r| == |parts| && forall i :: 0 <= i < |parts| ==> r[i] == Lower(parts[i])
  {
    if parts == [] then [] else [Lower(parts[0])] + LowerAll(parts[1..])
  }

  lemma {:induction false} LowerJoin(parts: seq<string>)
    requires parts != []
    ensures Lower(Join(parts)) == Join(LowerAll(parts))
    decreases |parts|
  {
    if |parts| > 1 {
      LowerJoin(parts[1..]);
      LowerConcat(parts[0] + "_", Join(parts[1..]));
      LowerConcat(parts[0], "_");
      assert Lower("_") == "_" by { assert "_"[1..] == ""; }
      assert LowerAll(parts)[1..] == LowerAll(parts[1..]);
    }
  }

  lemma {:induction false} LowerUnderscore(s: string)
    ensures '_' in Lower(s) <==> '_' in s
  {
    if s != "" {
      LowerUnderscore(s[1..]);
      assert s == [s[0]] + s[1..];
    }
  }

  // ---- the leaves of a schema ----

  /** What is inside optionals and arrays. */
  function Unwrapped(schema: Schema): Schema {
    match schema
    case Optional(inner) => Unwrapped(inner)
    case ArrayOf(element) => Unwrapped(element)
    case _ => schema
  }

  predicate Bare(schema: Schema) {
    match Unwrapped(schema)
    case Scalar => true
    case Object(shape) => shape == []
    case _ => false
  }

  /** The path leads, property by property, to one without properties of its own. */
  ghost predicate SchemaLeaf(schema: Schema, path: seq<string>)
    decreases |path|
  {
    var s := Unwrapped(schema);
    && path != [] && s.Object?
    && exists p :: p in s.shape && p.0 == path[0] && if |path| == 1 then Bare(p.1) else SchemaLeaf(p.1, path[1..])
  }

  /** On the way, no other property has the same name in another letter case. */
  ghost predicate Undisplaced(schema: Schema, path: seq<string>)
    decreases |path|
  {
    var s := Unwrapped(schema);
    && path != [] && s.Object?
    && (forall i :: 0 <= i < |s.shape| && s.shape[i].0 == path[0] ==> Alone(s.shape, i))
    && (|path| > 1 ==> forall p :: p in s.shape && p.0 == path[0] ==> Undisplaced(p.1, path[1..]))
  }

  predicate Alone(shape: seq<(string, Schema)>, i: nat)
    requires i < |shape|
  {
    forall j :: 0 <= j < |shape| && j != i ==> !AnyCase(shape[j].0, shape[i].0)
  }

  lemma {:induction false} UnwrappedKeyMap(schema: Schema)
    ensures KeyMapOf(schema) == KeyMapOf(Unwrapped(schema))
    decreases schema
  {
    match schema
    case Optional(inner) => UnwrappedKeyMap(inner);
    case ArrayOf(element) => UnwrappedKeyMap(element);
    case _ =>
  }

  lemma BareIff(schema: Schema)
    ensures KeyMapOf(schema) == [] <==> Bare(schema)
  {
    UnwrappedKeyMap(schema);
    UnwrappedIsFlat(schema);
  }

  lemma {:induction false} UnwrappedIsFlat(schema: Schema)
    ensures Unwrapped(schema).Scalar? || Unwrapped(schema).Object?
    decreases schema
  {
    match schema
    case Optional(inner) => UnwrappedIsFlat(inner);
    case ArrayOf(element) => UnwrappedIsFlat(element);
    case _ =>
  }

  function EntryOf(p: (string, Schema)): (string, KeyMap) {
    var nested := KeyMapOf(p.1);
    if nested != [] then (p.0, Section(nested)) else (Lower(p.0), Leaf(p.0))
  }

  lemma {:induction false} PutHas(entries: seq<(string, KeyMap)>, key: string, value: KeyMap)
    ensures (key, value) in Put(entries, key, value)
    ensures forall e :: e in entries && e.0 != key ==> e in Put(entries, key, value)
    ensures forall e :: e in Put(entries, key, value) ==> e == (key, value) || e in entries
    decreases |entries|
  {
    if entries != [] && entries[0].0 != key {
      PutHas(entries[1..], key, value);
      assert entries == [entries[0]] + entries[1..];
    }
  }

  lemma EntryKey(p: (string, Schema))
    ensures Lower(EntryOf(p).0) == Lower(p.0)
  {
    LowerTwice(p.0);
  }

  /** Every entry is a property's, and a property whose name no other one shares has its entry. */
  lemma {:induction false} EntriesAre(shape: seq<(string, Schema)>, whole: Schema)
    requires forall p :: p in shape ==> p.1 < whole
    ensures forall e :: e in EntriesOf(shape, whole) ==> exists p :: p in shape && e == EntryOf(p)
    ensures forall i :: 0 <= i < |shape| && Alone(shape, i) ==> EntryOf(shape[i]) in EntriesOf(shape, whole)
    decreases |shape|
  {
    if shape != [] {
      var front, p := shape[..|shape| - 1], shape[|shape| - 1];
      assert shape == front + [p];
      EntriesAre(front, whole);
      PutHas(EntriesOf(front, whole), EntryOf(p).0, EntryOf(p).1);
      assert EntriesOf(shape, whole) == Put(EntriesOf(front, whole), EntryOf(p).0, EntryOf(p).1);
      forall i | 0 <= i < |shape| && Alone(shape, i)
        ensures EntryOf(shape[i]) in EntriesOf(shape, whole)
      {
        if i < |front| {
          AloneInFront(shape, i);
          EntryKey(p);
          EntryKey(shape[i]);
          LowerIffAnyCase(p.0, shape[i].0);
        }
      }
    }
  }

  lemma AloneInFront(shape: seq<(string, Schema)>, i: nat)
    requires i < |shape| - 1 && Alone(shape, i)
    ensures Alone(shape[..|shape| - 1], i) && !AnyCase(shape[|shape| - 1].0, shape[i].0)
  {
  }

  lemma {:induction false} FindIs(entries: seq<(string, KeyMap)>, part: string, e: (string, KeyMap))
    requires e in entries && Lower(e.0) == Lower(part)
    requires forall x :: x in entries && Lower(x.0) == Lower(part) ==> x == e
    ensures Find(entries, part).Some? && entries[Find(entries, part).value] == e
    decreases |entries|
  {
    if entries[0] != e {
      FindIs(entries[1..], part, e);
    }
  }

  lemma {:induction false} UnderIs(entries: seq<(string, KeyMap)>, e: (string, KeyMap))
    requires e in entries && forall x :: x in entries && x.0 == e.0 ==> x == e
    ensures Under(entries, e.0) == Some(e.1)
    decreases |entries|
  {
    if entries[0] != e {
      UnderIs(entries[1..], e);
    }
  }

  /** What a segment finds: the entry of the one property of that name, in whatever letter case. */
  lemma SegmentFinds(schema: Schema, name: string, part: string) returns (p: (string, Schema))
    requires var s := Unwrapped(schema);
             s.Object? && (exists q :: q in s.shape && q.0 == name)
             && (forall i :: 0 <= i < |s.shape| && s.shape[i].0 == name ==> Alone(s.shape, i))
    requires AnyCase(part, name)
    ensures p in Unwrapped(schema).shape && p.0 == name
    ensures forall q :: q in Unwrapped(schema).shape && q.0 == name ==> q == p
    ensures var es := KeyMapOf(schema);
            && Find(es, part).Some? && es[Find(es, part).value] == EntryOf(p)
            && (EntryOf(p).1.Leaf? ==> Under(es, Lower(part)) == Some(EntryOf(p).1))
  {
    var s := Unwrapped(schema);
    UnwrappedKeyMap(schema);
    var es := KeyMapOf(schema);
    var q :| q in s.shape && q.0 == name;
    var i :| 0 <= i < |s.shape| && s.shape[i] == q;
    p := q;
    EntriesAre(s.shape, s);
    EntryKey(p);
    LowerIffAnyCase(part, name);
    LowerIffAnyCase(name, name);
    forall x | x in es && Lower(x.0) == Lower(part)
      ensures x == EntryOf(p)
    {
      var r :| r in s.shape && x == EntryOf(r);
      EntryKey(r);
      LowerIffAnyCase(r.0, name);
      var j :| 0 <= j < |s.shape| && s.shape[j] == r;
    }
    FindIs(es, part, EntryOf(p));
    if EntryOf(p).1.Leaf? {
      LowerTwice(name);
      UnderIs(es, EntryOf(p));
    }
    forall r | r in s.shape && r.0 == name
      ensures r == p
    {
      var j :| 0 <= j < |s.shape| && s.shape[j] == r;
      LowerIffAnyCase(r.0, name);
    }
  }

  predicate PartsInAnyCase(parts: seq<string>, path: seq<string>) {
    |parts| == |path| && forall i :: 0 <= i < |path| ==> AnyCase(parts[i], path[i])
  }

  predicate NoneEmpty(path: seq<string>) {
    forall i :: 0 <= i < |path| ==> path[i] != ""
  }

  /** A leaf of the schema is found under its path, segment by segment, in any letter case. */
  lemma {:induction false} LeafResolves(schema: Schema, path: seq<string>, parts: seq<string>)
    requires SchemaLeaf(schema, path) && Undisplaced(schema, path) && NoneEmpty(path) && PartsInAnyCase(parts, path)
    ensures parts != [] && NamesLeaf(KeyMapOf(schema), parts)
    ensures Resolve(KeyMapOf(schema), parts) == Target(path[..|path| - 1], Some(path[|path| - 1]))
    decreases |path|
  {
    var p := FirstSegment(schema, path, parts);
    var es := KeyMapOf(schema);
    if |path| == 1 {
      ResolveLast(es, parts, path[0]);
      assert path[..0] == [];
    } else {
      LeafResolves(p.1, path[1..], parts[1..]);
      ResolveStep(es, parts, EntryOf(p));
      assert [path[0]] + path[1..][..|path| - 2] == path[..|path| - 1];
    }
  }

  lemma FirstSegment(schema: Schema, path: seq<string>, parts: seq<string>) returns (p: (string, Schema))
    requires SchemaLeaf(schema, path) && Undisplaced(schema, path) && NoneEmpty(path) && PartsInAnyCase(parts, path)
    ensures p.0 == path[0]
    ensures |path| == 1 ==> Under(KeyMapOf(schema), Lower(parts[0])) == Some(Leaf(path[0]))
    ensures |path| > 1 ==>
              && SchemaLeaf(p.1, path[1..]) && Undisplaced(p.1, path[1..])
              && NoneEmpty(path[1..]) && PartsInAnyCase(parts[1..], path[1..])
              && EntryOf(p) == (path[0], Section(KeyMapOf(p.1)))
              && Find(KeyMapOf(schema), parts[0]).Some?
              && KeyMapOf(schema)[Find(KeyMapOf(schema), parts[0]).value] == EntryOf(p)
  {
    p := SegmentFinds(schema, path[0], parts[0]);
    BareIff(p.1);
    if |path| > 1 {
      LeafBelow(schema, path, parts, p);
    }
  }

  lemma ResolveLast(entries: seq<(string, KeyMap)>, parts: seq<string>, name: string)
    requires |parts| == 1 && Under(entries, Lower(parts[0])) == Some(Leaf(name))
    ensures NamesLeaf(entries, parts) && Resolve(entries, parts) == Target([], Some(name))
  {
  }

  lemma LeafBelow(schema: Schema, path: seq<string>, parts: seq<string>, p: (string, Schema))
    requires SchemaLeaf(schema, path) && Undisplaced(schema, path) && NoneEmpty(path) && PartsInAnyCase(parts, path)
    requires |path| > 1 && p in Unwrapped(schema).shape && p.0 == path[0]
    requires forall q :: q in Unwrapped(schema).shape && q.0 == path[0] ==> q == p
    ensures SchemaLeaf(p.1, path[1..]) && Undisplaced(p.1, path[1..])
    ensures NoneEmpty(path[1..]) && PartsInAnyCase(parts[1..], path[1..])
    ensures EntryOf(p) == (p.0, Section(KeyMapOf(p.1)))
  {
    LeafIsNotBare(p.1, path[1..]);
    BareIff(p.1);
  }

  lemma ResolveStep(entries: seq<(string, KeyMap)>, parts: seq<string>, e: (string, KeyMap))
    requires |parts| > 1 && Find(entries, parts[0]).Some? && entries[Find(entries, parts[0]).value] == e
    requires e.0 != "" && e.1.Section? && NamesLeaf(e.1.entries, parts[1..])
    ensures NamesLeaf(entries, parts)
    ensures var below := Resolve(e.1.entries, parts[1..]);
            Resolve(entries, parts) == Target([e.0] + below.sections, below.key)
  {
  }

  lemma LeafIsNotBare(schema: Schema, path: seq<string>)
    requires SchemaLeaf(schema, path)
    ensures !Bare(schema)
  {
  }

  /** And nothing else is in the key map: each of its leaves is one of the schema. */
  lemma {:induction false} MappedIsLeaf(schema: Schema, path: seq<string>)
    requires LeafPath(KeyMapOf(schema), path)
    ensures SchemaLeaf(schema, path)
    decreases |path|
  {
    var s := Unwrapped(schema);
    UnwrappedKeyMap(schema);
    UnwrappedIsFlat(schema);
    var es := KeyMapOf(schema);
    var i :| 0 <= i < |es| && LeadsOn(es[i], path);
    EntriesAre(s.shape, s);
    assert es[i] in es;
    var p :| p in s.shape && es[i] == EntryOf(p);
    BareIff(p.1);
    if |path| > 1 {
      MappedIsLeaf(p.1, path[1..]);
    }
  }

  // ---- the variable of a leaf ----

  /** The variable spelled prefix, then the names of the path joined by underscores, in any letter case. */
  predicate IsVariableOf(s: Setting, v: Variable, path: seq<string>)
    requires path != []
  {
    v.value.Some? && v.value.value != "" && AnyCase(v.name, s.prefix + Join(path))
  }

  lemma VariableParts(s: Setting, v: Variable, path: seq<string>)
    requires path != [] && Lower(s.prefix) == s.prefix && IsVariableOf(s, v, path) && NoUnderscore(path)
    ensures TakesPart(s, v) && Parts(s, v) == LowerAll(path)
  {
    LowerIffAnyCase(v.name, s.prefix + Join(path));
    LowerConcat(s.prefix, Join(path));
    LowerJoin(path);
    forall i | 0 <= i < |path|
      ensures '_' !in LowerAll(path)[i]
    {
      LowerUnderscore(path[i]);
    }
    SplitOfJoin(LowerAll(path));
    assert Lower(v.name) == s.prefix + Join(LowerAll(path));
  }

  /** Such a variable names that leaf and writes to it. */
  lemma VariableWrites(schema: Schema, s: Setting, v: Variable, path: seq<string>)
    requires s.entries == KeyMapOf(schema) && Lower(s.prefix) == s.prefix
    requires SchemaLeaf(schema, path) && Undisplaced(schema, path) && NoneEmpty(path) && NoUnderscore(path)
    requires IsVariableOf(s, v, path)
    ensures TakesPart(s, v) && NamesLeaf(s.entries, Parts(s, v)) && Writes(s, v, path)
    ensures OverrideOf(s, v).target.sections == path[..|path| - 1]
  {
    VariableParts(s, v, path);
    LowerAllInAnyCase(path);
    LeafResolves(schema, path, LowerAll(path));
    WritesTo(s, v, path);
  }

  lemma WritesTo(s: Setting, v: Variable, path: seq<string>)
    requires TakesPart(s, v) && path != []
    requires Resolve(s.entries, Parts(s, v)) == Target(path[..|path| - 1], Some(path[|path| - 1]))
    ensures Writes(s, v, path) && OverrideOf(s, v).target.sections == path[..|path| - 1]
  {
    assert path[..|path| - 1] + [path[|path| - 1]] == path;
  }

  lemma LowerAllInAnyCase(path: seq<string>)
    ensures PartsInAnyCase(LowerAll(path), path)
  {
    forall i | 0 <= i < |path|
      ensures AnyCase(LowerAll(path)[i], path[i])
    {
      LowerTwice(path[i]);
      LowerIffAnyCase(LowerAll(path)[i], path[i]);
    }
  }

  /**
   A schema leaf that no name in another letter case displaces is set by its variable, whatever the letter case,
   unless a section on the way conflicts; nothing at a path apart from it changes.
   */
  lemma VariableSetsItsLeaf(schema: Schema, s: Setting, c: Config, v: Variable, path: seq<string>, other: seq<string>)
    requires s.entries == KeyMapOf(schema) && Lower(s.prefix) == s.prefix
    requires SchemaLeaf(schema, path) && Undisplaced(schema, path) && NoneEmpty(path) && NoUnderscore(path)
    requires IsVariableOf(s, v, path) && other != [] && Apart(other, path)
    ensures var end := ApplyAll(c, Overrides(s, [v]));
            && (if Conflict(c, path[..|path| - 1]) then end == c else At(end, path) == s.parse(v.value.value))
            && At(end, other) == At(c, other)
  {
    VariableWrites(schema, s, v, path);
    var o := OverrideOf(s, v);
    assert [v][1..] == [] && [o][1..] == [];
    assert Overrides(s, [v]) == [o];
    assert ApplyAll(c, [o]) == ApplyOne(c, o);
    OwnLeaf(c, o.target.sections, o.target.key.value, o.value);
    OtherPathsUntouched(c, o.target.sections, o.target.key.value, o.value, other);
  }

  /** Variables that are unset, empty or without the prefix are as good as absent. */
  lemma OthersArePassedOver(s: Setting, a: seq<Variable>, v: Variable, b: seq<Variable>)
    requires Lower(s.prefix) == s.prefix
    requires v.value.None? || v.value == Some("") || |v.name| < |s.prefix| || !AnyCase(v.name[..|s.prefix|], s.prefix)
    ensures Overrides(s, a + [v] + b) == Overrides(s, a + b)
  {
    var n := |s.prefix|;
    LowerLength(v.name);
    if n <= |v.name| {
      LowerConcat(v.name[..n], v.name[n..]);
      assert v.name == v.name[..n] + v.name[n..];
      LowerLength(v.name[..n]);
      LowerIffAnyCase(v.name[..n], s.prefix);
    }
    assert !TakesPart(s, v);
    OverridesConcat(s, a + [v], b);
    OverridesConcat(s, a, [v]);
    OverridesConcat(s, a, b);
    assert [v][1..] == [];
    assert Overrides(s, [v]) == [];
  }

  /** A last segment that names a section, or nothing, writes no property of the schema but a stray key. */
  lemma StrayKeys(entries: seq<(string, KeyMap)>, part: string, km: KeyMap)
    ensures (forall e :: e in entries ==> e.0 != Lower(part)) ==> Resolve(entries, [part]) == Target([], Some(part))
    ensures (Lower(part), km) in entries && km.Section? && (forall e :: e in entries && e.0 == Lower(part) ==> e.1 == km) ==>
              Resolve(entries, [part]) == Target([], Some("[object Object]"))
  {
    if forall e :: e in entries ==> e.0 != Lower(part) {
      NotUnder(entries, Lower(part));
    }
    if (Lower(part), km) in entries && (forall e :: e in entries && e.0 == Lower(part) ==> e.1 == km) {
      UnderIs(entries, (Lower(part), km));
    }
  }

  lemma {:induction false} NotUnder(entries: seq<(string, KeyMap)>, key: string)
    requires forall e :: e in entries ==> e.0 != key
    ensures Under(entries, key).None?
  {
    if entries != [] {
      NotUnder(entries[1..], key);
    }
  }

  /** Of two variables of one leaf, the one that comes later in the environment decides. */
  lemma LaterVariableWins(s: Setting, c: Config, v: Variable, w: Variable)
    requires TakesPart(s, v) && TakesPart(s, w) && OverrideOf(s, v).target == OverrideOf(s, w).target
    requires OverrideOf(s, v).target.key.Some?
    ensures ApplyAll(c, Overrides(s, [v, w])) == ApplyAll(c, Overrides(s, [w]))
  {
    var a, b := OverrideOf(s, v), OverrideOf(s, w);
    assert [v, w][1..] == [w] && [w][1..] == [] && [a, b][1..] == [b] && [b][1..] == [];
    assert Overrides(s, [w]) == [b] && Overrides(s, [v, w]) == [a] + [b];
    assert [a] + [b] == [a, b];
    LastOneWins(c, a.target.sections, a.target.key.value, a.value, b.value);
    assert ApplyAll(c, [a, b]) == ApplyAll(ApplyOne(c, a), [b]) == ApplyOne(ApplyOne(c, a), b);
    assert ApplyAll(c, [b]) == ApplyOne(c, b);
  }

  // ---- segments that lead nowhere ----

  /** An empty segment before the last, as in a doubled underscore, is unknown. */
  lemma EmptySegment(entries: seq<(string, KeyMap)>, parts: seq<string>)
    requires |parts| > 1 && parts[0] == ""
    ensures Resolve(entries, parts) == Target([], None)
  {
    var i := Find(entries, "");
    if i.Some? {
      LowerLength(entries[i.value].0);
    }
  }

  predicate IsDigit(c: char) {
    '0' <= c <= '9'
  }

  function NumberOf(s: string): int {
    if s == "" then 0 else 10 * NumberOf(s[..|s| - 1]) + (s[|s| - 1] as int - '0' as int)
  }

  /** An index is written in digits that mean it, without a leading zero. */
  lemma {:induction false} DecimalMeans(n: nat)
    ensures var s := Decimal(n);
            s != "" && (forall c :: c in s ==> IsDigit(c)) && NumberOf(s) == n && (s[0] == '0' ==> n == 0)
  {
    var s := Decimal(n);
    if n < 10 {
      assert s[..0] == "";
      assert NumberOf(s) == 10 * NumberOf(s[..0]) + (s[0] as int - '0' as int);
    } else {
      DecimalMeans(n / 10);
      assert s[..|s| - 1] == Decimal(n / 10);
      assert forall c :: c in s ==> c in Decimal(n / 10) || c == s[|s| - 1];
    }
  }

  lemma {:induction false} LowerDigits(s: string)
    requires forall c :: c in s ==> IsDigit(c)
    ensures Lower(s) == s
  {
    if s != "" {
      assert s[0] in s && forall c :: c in s[1..] ==> c in s;
      LowerDigits(s[1..]);
    }
  }

  lemma IndexEntries(name: string)
    ensures var es := Inside(Leaf(name));
            && |es| == |name|
            && forall i :: 0 <= i < |es| ==> es[i] == (Decimal(i), Leaf([name[i]])) && Lower(es[i].0) == es[i].0
    ensures forall i, j :: 0 <= i < |name| && 0 <= j < |name| && Decimal(i) == Decimal(j) ==> i == j
  {
    forall i: nat
      ensures Lower(Decimal(i)) == Decimal(i) && NumberOf(Decimal(i)) == i
    {
      DecimalMeans(i);
      LowerDigits(Decimal(i));
    }
  }

  /** Below a leaf the segments are the indices of its name: an index leads to its letter, and nothing else leads on. */
  lemma BelowALeaf(name: string, part: string, more: seq<string>)
    requires Lower(part) == part && more != []
    ensures (exists i :: 0 <= i < |name| && part == Decimal(i)) ==>
              exists i :: && 0 <= i < |name| && part == Decimal(i)
                          && Resolve(Inside(Leaf(name)), [part]) == Target([], Some([name[i]]))
    ensures (forall i :: 0 <= i < |name| ==> part != Decimal(i)) ==>
              && Resolve(Inside(Leaf(name)), [part]) == Target([], Some(part))
              && Resolve(Inside(Leaf(name)), [part] + more) == Target([], None)
  {
    var es := Inside(Leaf(name));
    IndexEntries(name);
    if i :| 0 <= i < |name| && part == Decimal(i) {
      assert es[i] in es && es[i].0 == part;
      UnderIs(es, es[i]);
    } else {
      NotUnder(es, part);
      NotFound(es, part);
      assert ([part] + more)[0] == part;
    }
  }

  lemma {:induction false} NotFound(entries: seq<(string, KeyMap)>, part: string)
    requires forall e :: e in entries ==> Lower(e.0) != Lower(part)
    ensures Find(entries, part).None?
  {
    if entries != [] {
      NotFound(entries[1..], part);
    }
  }

  /** Sections on the way keep their kind, and those that are created are objects. */
  lemma {:induction false} SectionKinds(c: Config, sections: seq<string>, key: Option<string>, v: Value, n: nat)
    requires 0 < n <= |sections| && !Conflict(c, sections)
    ensures var before, after := At(c, sections[..n]), At(Apply(c, sections, key, v), sections[..n]);
            after.Node? && (after.isArray <==> before.Node? && before.isArray)
    decreases n
  {
    var k, fields := sections[0], Below(c, sections[0]).value.fields;
    assert sections[..n][0] == k && sections[..n][1..] == sections[1..][..n - 1];
    EmptyHasNoConflict(sections[1..]);
    if n > 1 {
      SectionKinds(fields, sections[1..], key, v, n - 1);
      if k !in c || c[k] == Undefined { AtEmpty(sections[1..][..n - 1]); }
    }
  }

  lemma AtEmpty(path: seq<string>)
    requires path != []
    ensures At(map[], path) == Undefined
  {
  }
}
