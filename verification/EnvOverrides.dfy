/**
 Configuration values taken from environment variables: each variable names a path of schema segments, and its
 value is written at the leaf, creating sections on the way.
 */
module EnvOverrides {
  import opened Options

  // ---- the key map of a schema ----

  /** A schema, with what Zod wraps around it. Object shapes list their properties in order. */
  datatype Schema =
    | Scalar
    | Optional(inner: Schema)
    | ArrayOf(element: Schema)
    | Object(shape: seq<(string, Schema)>)

  /** Case-insensitive lookup tables: a section under its own key, a leaf under its lower-cased key. */
  datatype KeyMap = Leaf(name: string) | Section(entries: seq<(string, KeyMap)>)

  function LowerChar(c: char): char {
    if 'A' <= c <= 'Z' then c - 'A' + 'a' else c
  }

  function Lower(s: string): string {
    if s == "" then "" else [LowerChar(s[0])] + Lower(s[1..])
  }

  /** Assignment to a key of the table: it replaces an earlier entry of that key. */
  function Put(entries: seq<(string, KeyMap)>, key: string, value: KeyMap): seq<(string, KeyMap)> {
    if entries == [] then [(key, value)]
    else if entries[0].0 == key then [(key, value)] + entries[1..]
    else [entries[0]] + Put(entries[1..], key, value)
  }

  /** The entries for a schema; none for a scalar or an empty object. */
  function KeyMapOf(schema: Schema): seq<(string, KeyMap)>
    decreases schema, 1, 0
  {
    match schema
    case Scalar => []
    case Optional(inner) => KeyMapOf(inner)
    case ArrayOf(element) => KeyMapOf(element)
    case Object(shape) => EntriesOf(shape, schema)
  }

  function EntriesOf(shape: seq<(string, Schema)>, ghost whole: Schema): seq<(string, KeyMap)>
    requires forall p :: p in shape ==> p.1 < whole
    decreases whole, 0, |shape|
  {
    if shape == [] then []
    else
      var front, (key, value) := shape[..|shape| - 1], shape[|shape| - 1];
      assert shape[|shape| - 1] in shape;
      var nested := KeyMapOf(value);
      if nested != [] then Put(EntriesOf(front, whole), key, Section(nested))
      else Put(EntriesOf(front, whole), Lower(key), Leaf(key))
  }

  // ---- where a variable leads ----

  /** Index of the first entry whose key is `part`, case aside. */
  function Find(entries: seq<(string, KeyMap)>, part: string): (i: Option<nat>)
    ensures i.Some? ==> i.value < |entries| && Lower(entries[i.value].0) == Lower(part)
  {
    if entries == [] then None
    else if Lower(entries[0].0) == Lower(part) then Some(0)
    else
      var rest := Find(entries[1..], part);
      if rest.Some? then Some(rest.value + 1) else None
  }

  /** Where a variable's segments lead: the sections walked, and the key written unless a segment is unknown. */
  datatype Target = Target(sections: seq<string>, key: Option<string>)

  /** The entry stored under exactly `key`. */
  function Under(entries: seq<(string, KeyMap)>, key: string): Option<KeyMap> {
    if entries == [] then None
    else if entries[0].0 == key then Some(entries[0].1)
    else Under(entries[1..], key)
  }

  /** The last segment: a leaf's own name; a section turns into the text of an object; an unknown segment stays. */
  function KeyFor(entries: seq<(string, KeyMap)>, part: string): string {
    match Under(entries, Lower(part))
    case Some(Leaf(name)) => name
    case Some(Section(_)) => "[object Object]"
    case None => part
  }

  function Decimal(n: nat): string {
    if n < 10 then ["0123456789"[n]] else Decimal(n / 10) + ["0123456789"[n % 10]]
  }

  /** The table one level down. Below a leaf it is the leaf's name, a string, whose keys are its indices. */
  function Inside(km: KeyMap): seq<(string, KeyMap)> {
    match km
    case Section(entries) => entries
    case Leaf(name) => seq(|name|, i requires 0 <= i < |name| => (Decimal(i), Leaf([name[i]])))
  }

  /** A segment is unknown if no key matches it, or the empty key does. */
  function Resolve(entries: seq<(string, KeyMap)>, parts: seq<string>): Target
    requires parts != []
    decreases |parts|
  {
    if |parts| == 1 then Target([], Some(KeyFor(entries, parts[0])))
    else
      var i := Find(entries, parts[0]);
      if i.None? || entries[i.value].0 == "" then Target([], None)
      else
        var below := Resolve(Inside(entries[i.value].1), parts[1..]);
        Target([entries[i.value].0] + below.sections, below.key)
  }

  // ---- writing one variable ----

  /** A configuration value. An array is a node whose elements are fields under their indices. */
  datatype Value = Undefined | Plain(text: string) | Node(isArray: bool, fields: map<string, Value>)

  type Config = map<string, Value>

  datatype Override = Override(target: Target, value: Value)

  /** The node under `k`, a new empty one if it is missing; None if something else is there. */
  function Below(config: Config, k: string): (below: Option<Value>)
    ensures below.Some? ==> below.value.Node?
  {
    if k !in config || config[k] == Undefined then Some(Node(false, map[]))
    else if config[k].Node? then Some(config[k])
    else None
  }

  /**
   Walks the sections, creating missing ones. A section that is not an object rejects the variable, and so does an
   unknown segment, after the sections before it were created.
   */
  function Apply(config: Config, sections: seq<string>, key: Option<string>, v: Value): Config
    decreases |sections|
  {
    if sections == [] then (if key.Some? then config[key.value := v] else config)
    else match Below(config, sections[0])
      case None => config
      case Some(node) =>
        config[sections[0] := node.(fields := Apply(node.fields, sections[1..], key, v))]
  }

  function ApplyOne(config: Config, o: Override): Config {
    Apply(config, o.target.sections, o.target.key, o.value)
  }

  function ApplyAll(config: Config, os: seq<Override>): Config
    decreases |os|
  {
    if os == [] then config else ApplyAll(ApplyOne(config, os[0]), os[1..])
  }

  // ---- the environment ----

  function Join(parts: seq<string>): string
    requires parts != []
  {
    if |parts| == 1 then parts[0] else parts[0] + "_" + Join(parts[1..])
  }

  /** The parts between underscores; there is always one. */
  function Split(s: string): (parts: seq<string>)
    ensures parts != [] && Join(parts) == s
    ensures forall i :: 0 <= i < |parts| ==> '_' !in parts[i]
  {
    if s == "" then [""]
    else
      var rest := Split(s[1..]);
      if s[0] == '_' then [""] + rest else [[s[0]] + rest[0]] + rest[1..]
  }

  datatype Variable = Variable(name: string, value: Option<string>)

  /** What the merge is given: the prefix in lower case, the key map, and what JSON.parse or else the text makes of a value. */
  datatype Setting = Setting(prefix: string, entries: seq<(string, KeyMap)>, parse: string -> Value)

  /** Unset and empty variables and those without the prefix are passed over. */
  predicate TakesPart(s: Setting, v: Variable) {
    v.value.Some? && v.value.value != "" && s.prefix <= Lower(v.name)
  }

  function Parts(s: Setting, v: Variable): (parts: seq<string>)
    requires TakesPart(s, v)
    ensures parts != []
  {
    Split(Lower(v.name)[|s.prefix|..])
  }

  function OverrideOf(s: Setting, v: Variable): Override
    requires TakesPart(s, v)
  {
    Override(Resolve(s.entries, Parts(s, v)), s.parse(v.value.value))
  }

  function Overrides(s: Setting, env: seq<Variable>): seq<Override> {
    if env == [] then []
    else (if TakesPart(s, env[0]) then [OverrideOf(s, env[0])] else []) + Overrides(s, env[1..])
  }

  /** The loop over the environment. */
  method MergeConfigFromEnvVars(defaults: Config, env: seq<Variable>, s: Setting) returns (config: Config)
    ensures config == ApplyAll(defaults, Overrides(s, env))
  {
    config := defaults;
    for i := 0 to |env|
      invariant ApplyAll(config, Overrides(s, env[i..])) == ApplyAll(defaults, Overrides(s, env))
    {
      var v := env[i];
      assert env[i..][0] == v && env[i..][1..] == env[i + 1..];
      ghost var rest := Overrides(s, env[i + 1..]);
      assert Overrides(s, env[i..]) == if TakesPart(s, v) then [OverrideOf(s, v)] + rest else [] + rest;
      assert [] + rest == rest;
      if v.value == None || v.value.value == "" {
        continue;
      }
      var lowercaseKey := Lower(v.name);
      if s.prefix <= lowercaseKey {
        var path := Split(lowercaseKey[|s.prefix|..]);
        assert ([OverrideOf(s, v)] + rest)[1..] == rest;
        config := ApplyOne(config, Override(Resolve(s.entries, path), s.parse(v.value.value)));
      }
    }
  }
}
