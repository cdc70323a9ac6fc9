/** Example values generated from OpenAPI schemas. */
module Examples {
  import opened Options
  import opened JsonValues
  import opened SchemaRefs
  import Strings

  type Value = Json<string>

  type Properties = seq<(string, RefOr<Schema>)>

  /** The least and the greatest number a schema allows, and whether each is itself excluded. */
  datatype Bounds = Bounds(minimum: Option<real>, exclusiveMinimum: bool, maximum: Option<real>, exclusiveMaximum: bool)

  datatype Kind =
    | StringType(enumeration: seq<Option<string>>, format: string, minLength: Option<nat>, maxLength: Option<nat>)
    | NumberType(numbers: seq<Option<real>>, bounds: Bounds)
    | BooleanType(flags: seq<Option<bool>>)
    | ArrayType(items: Option<RefOr<Schema>>, minItems: Option<nat>)
    | ObjectType(properties: Properties, required: seq<string>)
    | AnyType(properties: Properties, required: seq<string>, hint: Option<string>)
    | Composed

  datatype Schema = Schema(example: Option<Value>, default: Option<Value>, kind: Kind)

  /** The document's schemas, and the heuristics that give a text for a format and a field name. */
  datatype Env = Env(schemas: Components<Schema>, suggest: (string, string) -> string)

  const SCHEMAS := "#/components/schemas/"
  const MAX_DEPTH := 5
  const MAX_OPTIONAL := 5
  const MAX_ITEMS := 5

  // ----- Texts -----

  function Padding(n: nat): (r: string)
    ensures |r| == n && forall i :: 0 <= i < n ==> r[i] == 'a'
  {
    seq(n, _ => 'a')
  }

  /** Padded to the least length, then cut to the greatest, which wins when the two conflict. */
  function Fit(s: string, minLength: Option<nat>, maxLength: Option<nat>): (r: string)
    ensures maxLength.Some? ==> |r| <= maxLength.value
    ensures minLength.Some? && (maxLength.Some? ==> minLength.value <= maxLength.value) ==> |r| >= minLength.value
    ensures r <= s || (s <= r && forall i :: |s| <= i < |r| ==> r[i] == 'a')
    ensures minLength.Some? && |s| < minLength.value && (maxLength.Some? ==> minLength.value <= maxLength.value) ==>
              |r| == minLength.value
    ensures maxLength.Some? && |r| < |s| ==> |r| == maxLength.value
    ensures (minLength.Some? ==> minLength.value <= |s|) && (maxLength.Some? ==> |s| <= maxLength.value) ==> r == s
  {
    var padded := if minLength.Some? && |s| < minLength.value then s + Padding(minLength.value - |s|) else s;
    if maxLength.Some? && |padded| > maxLength.value then padded[..maxLength.value] else padded
  }

  method ApplyLengthConstraints(text: string, minLength: Option<nat>, maxLength: Option<nat>) returns (r: Value)
    ensures r == String(Fit(text, minLength, maxLength))
  {
    var s := text;
    if minLength.Some? {
      while |s| < minLength.value
        invariant |text| <= |s| && (s == text || |s| <= minLength.value)
        invariant s == text + Padding(|s| - |text|)
      {
        s := s + ['a'];
      }
    }
    if maxLength.Some? && |s| > maxLength.value {
      s := s[..maxLength.value];
    }
    return String(s);
  }

  function FirstEnum<T>(enumeration: seq<Option<T>>): Option<T> {
    if enumeration == [] then None
    else if enumeration[0].Some? then enumeration[0]
    else FirstEnum(enumeration[1..])
  }

  /** The first value listed, if any entry is one. */
  lemma {:induction false} FirstEnumExact<T>(enumeration: seq<Option<T>>)
    ensures FirstEnum(enumeration).None? <==> forall i :: 0 <= i < |enumeration| ==> enumeration[i].None?
    ensures FirstEnum(enumeration).Some? ==>
              exists i :: 0 <= i < |enumeration| && enumeration[i] == FirstEnum(enumeration)
                  && forall j :: 0 <= j < i ==> enumeration[j].None?
  {
    if enumeration != [] && enumeration[0].None? {
      var rest := enumeration[1..];
      FirstEnumExact(rest);
      assert forall i :: 0 < i < |enumeration| ==> enumeration[i] == rest[i - 1];
      if FirstEnum(rest).Some? {
        var i :| 0 <= i < |rest| && rest[i] == FirstEnum(rest) && forall j :: 0 <= j < i ==> rest[j].None?;
        assert enumeration[i + 1] == FirstEnum(enumeration) && forall j :: 0 <= j < i + 1 ==> enumeration[j].None?;
      } else {
        assert forall i :: 0 < i < |enumeration| ==> enumeration[i].None?;
      }
    } else if enumeration != [] {
      assert enumeration[0] == FirstEnum(enumeration);
    }
  }

  // ----- Numbers -----

  /** The number made up: at or one above the minimum; else one, or at or one below a maximum under one. */
  function WithinBounds(b: Bounds): real {
    if b.minimum.Some? then (if b.exclusiveMinimum then b.minimum.value + 1.0 else b.minimum.value)
    else if b.maximum.Some? && b.maximum.value < 1.0 then
      if b.exclusiveMaximum then b.maximum.value - 1.0 else b.maximum.value
    else 1.0
  }

  ghost predicate MeetsMinimum(b: Bounds, x: real) {
    b.minimum.Some? ==> if b.exclusiveMinimum then b.minimum.value < x else b.minimum.value <= x
  }

  ghost predicate MeetsMaximum(b: Bounds, x: real) {
    b.maximum.Some? ==> if b.exclusiveMaximum then x < b.maximum.value else x <= b.maximum.value
  }

  /** The room a minimum needs below the maximum; without a minimum, only an excluded maximum of one is in the way. */
  ghost predicate LeavesRoom(b: Bounds) {
    b.maximum.Some? ==>
      if b.minimum.Some? then
        var least := if b.exclusiveMinimum then b.minimum.value + 1.0 else b.minimum.value;
        if b.exclusiveMaximum then least < b.maximum.value else least <= b.maximum.value
      else !(b.exclusiveMaximum && b.maximum.value == 1.0)
  }

  /** The minimum is always met; the maximum exactly when the bounds leave room. */
  lemma BoundsExact(b: Bounds)
    ensures MeetsMinimum(b, WithinBounds(b))
    ensures MeetsMaximum(b, WithinBounds(b)) <==> LeavesRoom(b)
    ensures b.minimum.Some? && !b.exclusiveMinimum ==> WithinBounds(b) == b.minimum.value
    ensures b.minimum.None? && b.maximum.None? ==> WithinBounds(b) == 1.0
  {}

  /** Every number below one is allowed, and one is made up. */
  lemma ExcludedOneExample()
    ensures var b := Bounds(None, false, Some(1.0), true);
            WithinBounds(b) == 1.0 && !MeetsMaximum(b, 1.0) && MeetsMaximum(b, 0.0) && MeetsMinimum(b, 0.0)
  {}

  // ----- Properties of an object -----

  function Lookup<T>(entries: seq<(string, T)>, name: string): Option<T> {
    if entries == [] then None
    else
      var last := entries[|entries| - 1];
      if last.0 == name then Some(last.1) else Lookup(entries[..|entries| - 1], name)
  }

  /** Replaces the entry of that name, or adds one. */
  function Put<T>(entries: seq<(string, T)>, name: string, value: T): seq<(string, T)> {
    if entries == [] then [(name, value)]
    else
      var n := |entries| - 1;
      if entries[n].0 == name then entries[..n] + [(name, value)] else Put(entries[..n], name, value) + [entries[n]]
  }

  /** The required names that are properties. */
  function RequiredOnes(properties: Properties, required: seq<string>): Properties {
    if required == [] then []
    else
      var name := required[|required| - 1];
      var before := RequiredOnes(properties, required[..|required| - 1]);
      match Lookup(properties, name) case None => before case Some(r) => before + [(name, r)]
  }

  function Optionals(properties: Properties, required: seq<string>): Properties {
    if properties == [] then []
    else
      var last := properties[|properties| - 1];
      Optionals(properties[..|properties| - 1], required) + (if last.0 in required then [] else [last])
  }

  function Take<T>(s: seq<T>, n: nat): seq<T> {
    if |s| <= n then s else s[..n]
  }

  /** What an object example shows: the required properties, then the first five others. */
  function Shown(properties: Properties, required: seq<string>): Properties {
    RequiredOnes(properties, required) + Take(Optionals(properties, required), MAX_OPTIONAL)
  }

  // ----- Specification -----

  function Left(depth: nat): nat {
    if depth > MAX_DEPTH then 0 else MAX_DEPTH + 1 - depth
  }

  function Example(env: Env, r: RefOr<Schema>, field: string, depth: nat): Value
    decreases Left(depth), 3
  {
    if depth > MAX_DEPTH then Null
    else
      match Resolve(r, SCHEMAS, env.schemas, {})
      case None => Null
      case Some(schema) => FromSchema(env, schema, field, depth)
  }

  function FromSchema(env: Env, schema: Schema, field: string, depth: nat): Value
    decreases Left(depth), 2
  {
    if depth > MAX_DEPTH then Null
    else if schema.example.Some? then schema.example.value
    else if schema.default.Some? then schema.default.value
    else FromKind(env, schema.kind, field, depth)
  }

  function Copies(minItems: Option<nat>): nat {
    if minItems.None? || minItems.value <= 1 then 1
    else if minItems.value < MAX_ITEMS then minItems.value
    else MAX_ITEMS
  }

  function FromKind(env: Env, kind: Kind, field: string, depth: nat): Value
    requires depth <= MAX_DEPTH
    decreases Left(depth), 1
  {
    match kind
    case StringType(enumeration, format, minLength, maxLength) =>
      (match FirstEnum(enumeration)
       case Some(s) => String(s)
       case None => String(Fit(env.suggest(format, field), minLength, maxLength)))
    case NumberType(numbers, bounds) =>
      (match FirstEnum(numbers) case Some(n) => Number(n) case None => Number(WithinBounds(bounds)))
    case BooleanType(flags) =>
      (match FirstEnum(flags) case Some(b) => Bool(b) case None => Bool(true))
    case ArrayType(items, minItems) =>
      (match items
       case None => Array([])
       case Some(item) =>
         var value := Example(env, item, "item", depth + 1);
         Array(seq(Copies(minItems), _ => value)))
    case ObjectType(properties, required) => Object(Members(env, Shown(properties, required), depth))
    case AnyType(properties, required, hint) =>
      if properties != [] then Object(Members(env, Shown(properties, required), depth))
      else FromHint(env, field, hint)
    case Composed => Null
  }

  function FromHint(env: Env, field: string, hint: Option<string>): Value {
    if hint == Some("string") then String(env.suggest("", field))
    else if hint == Some("integer") || hint == Some("number") then Number(1.0)
    else if hint == Some("boolean") then Bool(true)
    else Null
  }

  /** The members for the properties shown, put one after the other. */
  function Members(env: Env, shown: Properties, depth: nat): seq<(string, Value)>
    requires depth <= MAX_DEPTH
    decreases Left(depth), 0, |shown|
  {
    if shown == [] then []
    else
      var last := shown[|shown| - 1];
      Put(Members(env, shown[..|shown| - 1], depth), last.0, Example(env, last.1, last.0, depth + 1))
  }

  // ----- The generator -----

  method GenerateExample(env: Env, r: RefOr<Schema>, field: string, depth: nat) returns (value: Value)
    ensures value == Example(env, r, field, depth)
    decreases Left(depth), 3
  {
    if depth > MAX_DEPTH {
      return Null;
    }
    var visited := new Visited();
    var schema := ResolveRef(r, SCHEMAS, env.schemas, visited);
    if schema.None? {
      return Null;
    }
    value := GenerateExampleFromSchema(env, schema.value, field, depth);
  }

  method GenerateExampleFromSchema(env: Env, schema: Schema, field: string, depth: nat) returns (value: Value)
    ensures value == FromSchema(env, schema, field, depth)
    decreases Left(depth), 2
  {
    if depth > MAX_DEPTH {
      return Null;
    }
    if schema.example.Some? {
      return schema.example.value;
    }
    if schema.default.Some? {
      return schema.default.value;
    }
    value := GenerateFromKind(env, schema.kind, field, depth);
  }

  method GenerateFromKind(env: Env, kind: Kind, field: string, depth: nat) returns (value: Value)
    requires depth <= MAX_DEPTH
    ensures value == FromKind(env, kind, field, depth)
    decreases Left(depth), 1
  {
    match kind
    case StringType(enumeration, format, minLength, maxLength) =>
      var first := FirstEnum(enumeration);
      if first.Some? {
        return String(first.value);
      }
      value := ApplyLengthConstraints(env.suggest(format, field), minLength, maxLength);
    case NumberType(numbers, bounds) =>
      var first := FirstEnum(numbers);
      value := Number(if first.Some? then first.value else WithinBounds(bounds));
    case BooleanType(flags) =>
      var first := FirstEnum(flags);
      value := Bool(if first.Some? then first.value else true);
    case ArrayType(items, minItems) =>
      if items.None? {
        return Array([]);
      }
      var item := GenerateExample(env, items.value, "item", depth + 1);
      value := Array(seq(Copies(minItems), _ => item));
    case ObjectType(properties, required) =>
      value := GenerateObjectExample(env, properties, required, depth);
    case AnyType(properties, required, hint) =>
      if properties != [] {
        value := GenerateObjectExample(env, properties, required, depth);
      } else {
        value := FromHint(env, field, hint);
      }
    case Composed => return Null;
  }

  lemma OptionalsPrefix(properties: Properties, required: seq<string>, n: nat)
    requires n <= |properties|
    ensures Optionals(properties[..n], required) <= Optionals(properties, required)
  {
    if n < |properties| {
      var shorter := properties[..|properties| - 1];
      OptionalsPrefix(shorter, required, n);
      assert shorter[..n] == properties[..n];
    } else {
      assert properties[..n] == properties;
    }
  }

  method GenerateObjectExample(env: Env, properties: Properties, required: seq<string>,
                               depth: nat)
    returns (value: Value)
    requires depth <= MAX_DEPTH
    ensures value == Object(Members(env, Shown(properties, required), depth))
    decreases Left(depth), 0
  {
    hide Members, Put, Example, RequiredOnes, Optionals, Lookup, Take;
    var members: seq<(string, Value)> := [];
    NothingShown(env, properties, required, depth);
    for i := 0 to |required|
      invariant members == Members(env, RequiredOnes(properties, required[..i]), depth)
    {
      var name := required[i];
      assert required[..i + 1] == required[..i] + [name];
      RequiredAppend(properties, required[..i], name);
      var property := Lookup(properties, name);
      if property.Some? {
        var example := GenerateExample(env, property.value, name, depth + 1);
        MembersAppend(env, RequiredOnes(properties, required[..i]), (name, property.value), depth);
        members := Put(members, name, example);
      }
    }
    assert required[..|required|] == required;
    ghost var first := RequiredOnes(properties, required);
    var count := 0;
    for i := 0 to |properties|
      invariant count == |Take(Optionals(properties[..i], required), MAX_OPTIONAL)|
      invariant members == Members(env, first + Take(Optionals(properties[..i], required), MAX_OPTIONAL), depth)
    {
      var (name, property) := properties[i];
      OptionalStep(properties, required, i);
      if name in required {
        continue;
      }
      if count >= MAX_OPTIONAL {
        break;
      }
      var example := GenerateExample(env, property, name, depth + 1);
      ghost var others := Take(Optionals(properties[..i], required), MAX_OPTIONAL);
      MembersAppend(env, first + others, properties[i], depth);
      assert first + others + [properties[i]] == first + (others + [properties[i]]);
      members := Put(members, name, example);
      count := count + 1;
    }
    assert properties[..|properties|] == properties;
    return Object(members);
  }

  lemma NothingShown(env: Env, properties: Properties, required: seq<string>, depth: nat)
    requires depth <= MAX_DEPTH
    ensures Members(env, [], depth) == [] && RequiredOnes(properties, required[..0]) == []
    ensures Take(Optionals(properties[..0], required), MAX_OPTIONAL) == []
    ensures RequiredOnes(properties, required) + [] == RequiredOnes(properties, required)
  {}

  /** The optional properties up to the next one: kept, full, or one more. */
  lemma OptionalStep(properties: Properties, required: seq<string>, i: nat)
    requires i < |properties|
    ensures var others := Take(Optionals(properties[..i], required), MAX_OPTIONAL);
            var next := Take(Optionals(properties[..i + 1], required), MAX_OPTIONAL);
            && (properties[i].0 in required ==> next == others)
            && (properties[i].0 !in required && |others| < MAX_OPTIONAL ==> next == others + [properties[i]])
            && (|others| >= MAX_OPTIONAL ==> Take(Optionals(properties, required), MAX_OPTIONAL) == others)
  {
    OptionalsAppend(properties[..i], properties[i], required);
    assert properties[..i + 1] == properties[..i] + [properties[i]];
    OptionalsPrefix(properties, required, i);
  }

  lemma RequiredAppend(properties: Properties, required: seq<string>, name: string)
    ensures RequiredOnes(properties, required + [name]) ==
            match Lookup(properties, name)
            case None => RequiredOnes(properties, required)
            case Some(r) => RequiredOnes(properties, required) + [(name, r)]
  {
    assert (required + [name])[..|required|] == required;
  }

  lemma MembersAppend(env: Env, shown: Properties, property: (string, RefOr<Schema>), depth: nat)
    requires depth <= MAX_DEPTH
    ensures Members(env, shown + [property], depth) ==
            Put(Members(env, shown, depth), property.0, Example(env, property.1, property.0, depth + 1))
  {
    assert (shown + [property])[..|shown|] == shown;
  }

  lemma OptionalsAppend(properties: Properties, last: (string, RefOr<Schema>), required: seq<string>)
    ensures Optionals(properties + [last], required) ==
            Optionals(properties, required) + (if last.0 in required then [] else [last])
  {
    assert (properties + [last])[..|properties|] == properties;
  }

  // ----- What an object example shows -----

  predicate DistinctNames<T>(entries: seq<(string, T)>) {
    forall i, j :: 0 <= i < j < |entries| ==> entries[i].0 != entries[j].0
  }

  /** The last value put under a name is the one found; the others stay; names stay distinct. */
  lemma {:induction false} PutExact<T>(entries: seq<(string, T)>, name: string, value: T, other: string)
    ensures Lookup(Put(entries, name, value), other) == if other == name then Some(value) else Lookup(entries, other)
  {
    if entries != [] {
      var n := |entries| - 1;
      if entries[n].0 == name {
        assert (entries[..n] + [(name, value)])[..n] == entries[..n];
      } else {
        PutExact(entries[..n], name, value, other);
        assert (Put(entries[..n], name, value) + [entries[n]])[..|Put(entries[..n], name, value)|] ==
          Put(entries[..n], name, value);
      }
    }
  }

  lemma {:induction false} LookupIn<T>(entries: seq<(string, T)>, name: string)
    ensures Lookup(entries, name).Some? <==> exists i :: 0 <= i < |entries| && entries[i].0 == name
    ensures Lookup(entries, name).Some? ==> (name, Lookup(entries, name).value) in entries
  {
    if entries != [] && entries[|entries| - 1].0 != name {
      var before := entries[..|entries| - 1];
      LookupIn(before, name);
      assert forall i :: 0 <= i < |before| ==> before[i] == entries[i];
    }
  }

  lemma {:induction false} PutDistinct<T>(entries: seq<(string, T)>, name: string, value: T)
    requires DistinctNames(entries)
    ensures DistinctNames(Put(entries, name, value))
  {
    if entries != [] && entries[|entries| - 1].0 != name {
      var n := |entries| - 1;
      PutDistinct(entries[..n], name, value);
      var before := Put(entries[..n], name, value);
      forall i | 0 <= i < |before| ensures before[i].0 != entries[n].0 {
        LookupIn(before, entries[n].0);
        PutExact(entries[..n], name, value, entries[n].0);
        LookupIn(entries[..n], entries[n].0);
      }
    }
  }

  /** Members have distinct names; each shown name holds the example of the last property shown under it. */
  lemma {:induction false} MembersExact(env: Env, shown: Properties, depth: nat, name: string)
    requires depth <= MAX_DEPTH
    ensures DistinctNames(Members(env, shown, depth))
    ensures Lookup(Members(env, shown, depth), name)
            == match Lookup(shown, name) case None => None case Some(r) => Some(Example(env, r, name, depth + 1))
  {
    if shown != [] {
      var last, before := shown[|shown| - 1], shown[..|shown| - 1];
      MembersExact(env, before, depth, name);
      PutDistinct(Members(env, before, depth), last.0, Example(env, last.1, last.0, depth + 1));
      PutExact(Members(env, before, depth), last.0, Example(env, last.1, last.0, depth + 1), name);
    }
  }

  lemma {:induction false} LookupAppend<T>(a: seq<(string, T)>, b: seq<(string, T)>, name: string)
    ensures Lookup(a + b, name) == if Lookup(b, name).Some? then Lookup(b, name) else Lookup(a, name)
  {
    if b == [] {
      assert a + b == a;
    } else {
      assert (a + b)[..|a + b| - 1] == a + b[..|b| - 1];
      LookupAppend(a, b[..|b| - 1], name);
    }
  }

  lemma {:induction false} RequiredLookup(properties: Properties, required: seq<string>, name: string)
    ensures Lookup(RequiredOnes(properties, required), name)
            == if name in required then Lookup(properties, name) else None
  {
    if required != [] {
      var n := |required| - 1;
      RequiredLookup(properties, required[..n], name);
      assert required == required[..n] + [required[n]];
      var before := RequiredOnes(properties, required[..n]);
      if Lookup(properties, required[n]).Some? {
        assert (before + [(required[n], Lookup(properties, required[n]).value)])[..|before|] == before;
      }
    }
  }

  lemma {:induction false} OptionalsExact(properties: Properties, required: seq<string>,
                                          property: (string, RefOr<Schema>))
    ensures property in Optionals(properties, required) <==> property in properties && property.0 !in required
  {
    if properties != [] {
      OptionalsExact(properties[..|properties| - 1], required, property);
      assert properties == properties[..|properties| - 1] + [properties[|properties| - 1]];
    }
  }

  /** How many of the first `n` properties are not required. */
  ghost function OptionalBefore(properties: Properties, required: seq<string>, n: nat): nat
    requires n <= |properties|
  {
    if n == 0 then 0
    else OptionalBefore(properties, required, n - 1) + (if properties[n - 1].0 in required then 0 else 1)
  }

  /** A property that is required, or one of the first five that are not. */
  ghost predicate IsShownAt(properties: Properties, required: seq<string>, i: nat) {
    i < |properties| && (properties[i].0 in required || OptionalBefore(properties, required, i) < 5)
  }

  ghost predicate IsShown(properties: Properties, required: seq<string>, name: string) {
    exists i: nat :: IsShownAt(properties, required, i) && properties[i].0 == name
  }

  lemma {:induction false} OptionalPlace(properties: Properties, required: seq<string>, i: nat)
    requires i < |properties| && properties[i].0 !in required
    ensures var k := OptionalBefore(properties, required, i);
            k < |Optionals(properties, required)| && Optionals(properties, required)[k] == properties[i]
  {
    var n := |properties| - 1;
    if i < n {
      OptionalPlace(properties[..n], required, i);
      BeforeInPrefix(properties, required, i);
    } else {
      OptionalCount(properties, required, n);
      assert properties[..n] == properties[..i];
    }
  }

  lemma {:induction false} BeforeInPrefix(properties: Properties, required: seq<string>, i: nat)
    requires i < |properties|
    ensures OptionalBefore(properties[..|properties| - 1], required, i) == OptionalBefore(properties, required, i)
  {
    if i > 0 {
      BeforeInPrefix(properties, required, i - 1);
    }
  }

  lemma {:induction false} OptionalCount(properties: Properties, required: seq<string>, n: nat)
    requires n <= |properties|
    ensures |Optionals(properties[..n], required)| == OptionalBefore(properties, required, n)
  {
    if n > 0 {
      OptionalCount(properties, required, n - 1);
      assert properties[..n][..n - 1] == properties[..n - 1];
    }
  }

  /** The properties taken are those with fewer than five optional ones before them. */
  lemma TakenExact(properties: Properties, required: seq<string>, i: nat)
    requires DistinctNames(properties) && i < |properties| && properties[i].0 !in required
    ensures Lookup(Take(Optionals(properties, required), MAX_OPTIONAL), properties[i].0).Some?
            <==> OptionalBefore(properties, required, i) < 5
  {
    hide Lookup, Optionals, OptionalBefore;
    var others := Optionals(properties, required);
    var taken, k := Take(others, MAX_OPTIONAL), OptionalBefore(properties, required, i);
    OptionalPlace(properties, required, i);
    LookupIn(taken, properties[i].0);
    OptionalsDistinct(properties, required);
    if k < 5 {
      assert taken[k].0 == properties[i].0;
    }
    if j :| 0 <= j < |taken| && taken[j].0 == properties[i].0 {
      assert others[j].0 == others[k].0;
      assert j == k;
    }
  }

  lemma {:induction false} OptionalsDistinct(properties: Properties, required: seq<string>)
    requires DistinctNames(properties)
    ensures DistinctNames(Optionals(properties, required))
  {
    if properties != [] {
      var n := |properties| - 1;
      var before := Optionals(properties[..n], required);
      OptionalsDistinct(properties[..n], required);
      forall i | 0 <= i < |before| ensures before[i].0 != properties[n].0 {
        OptionalsExact(properties[..n], required, before[i]);
      }
    }
  }

  lemma LookupAt<T>(entries: seq<(string, T)>, i: nat)
    requires DistinctNames(entries) && i < |entries|
    ensures Lookup(entries, entries[i].0) == Some(entries[i].1)
  {
    assert (entries[i].0, entries[i].1) == entries[i] && entries[i] in entries;
    DistinctLookup(entries, entries[i].0, entries[i].1);
  }

  lemma ShownIs(properties: Properties, required: seq<string>, name: string)
    requires DistinctNames(properties)
    ensures IsShown(properties, required, name) <==>
            Lookup(properties, name).Some?
            && (name in required || Lookup(Take(Optionals(properties, required), MAX_OPTIONAL), name).Some?)
  {
    hide Lookup, Optionals, OptionalBefore, DistinctNames, Take;
    LookupIn(properties, name);
    forall i: nat | i < |properties| && properties[i].0 == name && name !in required
      ensures Lookup(Take(Optionals(properties, required), MAX_OPTIONAL), name).Some?
              <==> OptionalBefore(properties, required, i) < 5
    {
      TakenExact(properties, required, i);
    }
    if Lookup(properties, name).Some? {
      var i: nat :| i < |properties| && properties[i].0 == name;
      assert name in required || OptionalBefore(properties, required, i) < 5 ==> IsShownAt(properties, required, i);
    }
  }

  lemma DistinctLookup<T>(entries: seq<(string, T)>, name: string, value: T)
    requires DistinctNames(entries) && (name, value) in entries
    ensures Lookup(entries, name) == Some(value)
  {
    var i :| 0 <= i < |entries| && entries[i] == (name, value);
    LookupIn(entries, name);
  }

  lemma ShownLookup(properties: Properties, required: seq<string>, name: string)
    requires DistinctNames(properties)
    ensures Lookup(Shown(properties, required), name)
            == if IsShown(properties, required, name) then Lookup(properties, name) else None
  {
    hide Lookup, Optionals, DistinctNames, RequiredOnes, IsShown;
    ShownIs(properties, required, name);
    var others := Take(Optionals(properties, required), MAX_OPTIONAL);
    LookupAppend(RequiredOnes(properties, required), others, name);
    RequiredLookup(properties, required, name);
    if Lookup(others, name).Some? {
      var property := (name, Lookup(others, name).value);
      LookupIn(others, name);
      assert property in Optionals(properties, required);
      OptionalsExact(properties, required, property);
      DistinctLookup(properties, name, property.1);
    }
  }

  /**
   * An object example has one member for each property that is required or one of the first five others, and
   * no other member; each holds the example of its property.
   */
  lemma ObjectExact(env: Env, properties: Properties, required: seq<string>, depth: nat)
    requires DistinctNames(properties) && depth <= MAX_DEPTH
    ensures var members := Members(env, Shown(properties, required), depth);
            && DistinctNames(members)
            && forall name, value :: (name, value) in members <==>
                 exists i: nat :: IsShownAt(properties, required, i) && properties[i].0 == name
                             && value == Example(env, properties[i].1, name, depth + 1)
  {
    hide Members, Shown, Example, Lookup, OptionalBefore;
    var members := Members(env, Shown(properties, required), depth);
    MembersExact(env, Shown(properties, required), depth, "");
    forall name, value ensures (name, value) in members <==>
      exists i: nat :: IsShownAt(properties, required, i) && properties[i].0 == name
                  && value == Example(env, properties[i].1, name, depth + 1)
    {
      MemberIs(env, properties, required, depth, name, value);
    }
  }

  lemma InEntries<T>(entries: seq<(string, T)>, name: string, value: T)
    requires DistinctNames(entries)
    ensures (name, value) in entries <==> Lookup(entries, name) == Some(value)
  {
    LookupIn(entries, name);
    if (name, value) in entries {
      DistinctLookup(entries, name, value);
    }
  }

  lemma MemberIs(env: Env, properties: Properties, required: seq<string>, depth: nat, name: string, value: Value)
    requires DistinctNames(properties) && depth <= MAX_DEPTH
    ensures (name, value) in Members(env, Shown(properties, required), depth) <==>
            exists i: nat :: IsShownAt(properties, required, i) && properties[i].0 == name
                        && value == Example(env, properties[i].1, name, depth + 1)
  {
    hide Members, Shown, Example, Lookup, OptionalBefore;
    ShownLookup(properties, required, name);
    MembersExact(env, Shown(properties, required), depth, name);
    InEntries(Members(env, Shown(properties, required), depth), name, value);
    forall i: nat | i < |properties| ensures Lookup(properties, properties[i].0) == Some(properties[i].1) {
      LookupAt(properties, i);
    }
  }

  // ----- What a scalar or an array example is -----

  /** An enumeration with a value wins over every heuristic; without one, a text meets its length bounds. */
  lemma StringExact(env: Env, enumeration: seq<Option<string>>, format: string, minLength: Option<nat>,
                    maxLength: Option<nat>,
                    field: string, depth: nat)
    requires depth <= MAX_DEPTH
    ensures var value := FromKind(env, StringType(enumeration, format, minLength, maxLength), field, depth);
            && value.String?
            && ((exists i :: 0 <= i < |enumeration| && enumeration[i].Some?) ==>
                 exists i :: 0 <= i < |enumeration| && enumeration[i] == Some(value.text) && forall j :: 0 <= j < i ==>
                     enumeration[j].None?)
            && ((forall i :: 0 <= i < |enumeration| ==> enumeration[i].None?) ==>
                 var suggested := env.suggest(format, field);
                 && (value.text <= suggested || suggested <= value.text)
                 && (minLength.None? && maxLength.None? ==> value.text == suggested)
                 && (maxLength.Some? ==> |value.text| <= maxLength.value)
                 && (minLength.Some? && (maxLength.Some? ==> minLength.value <= maxLength.value) ==>
                    |value.text| >= minLength.value))
  {
    FirstEnumExact(enumeration);
  }

  /** A schema's own example comes before its default, and both before anything made up. */
  lemma ExplicitFirst(env: Env, r: RefOr<Schema>, field: string, depth: nat)
    ensures var found := Resolve(r, "#/components/schemas/", env.schemas, {});
            && (depth > 5 || found.None? ==> Example(env, r, field, depth) == Null)
            && (depth <= 5 && found.Some? ==>
                 var schema := found.value;
                 && (schema.example.Some? ==> Example(env, r, field, depth) == schema.example.value)
                 && (schema.example.None? && schema.default.Some? ==>
                       Example(env, r, field, depth) == schema.default.value)
                 && (schema.example.None? && schema.default.None? ==>
                       Example(env, r, field, depth) == FromKind(env, schema.kind, field, depth)))
  {
    hide FromKind, Resolve;
  }

  /** The first number listed; without one a number of the minimum's side, within the maximum if there is room. */
  lemma NumberExact(env: Env, numbers: seq<Option<real>>, bounds: Bounds, field: string, depth: nat)
    requires depth <= MAX_DEPTH
    ensures var value := FromKind(env, NumberType(numbers, bounds), field, depth);
            && value.Number?
            && ((forall i :: 0 <= i < |numbers| ==> numbers[i].None?) ==>
                 MeetsMinimum(bounds, value.number) && (MeetsMaximum(bounds, value.number) <==> LeavesRoom(bounds)))
            && ((exists i :: 0 <= i < |numbers| && numbers[i].Some?) ==>
                 exists i :: 0 <= i < |numbers| && numbers[i] == Some(value.number) && forall j :: 0 <= j < i ==>
                     numbers[j].None?)
  {
    FirstEnumExact(numbers);
    BoundsExact(bounds);
  }

  /** The first flag listed, or true. */
  lemma BooleanExact(env: Env, flags: seq<Option<bool>>, field: string, depth: nat)
    requires depth <= MAX_DEPTH
    ensures var value := FromKind(env, BooleanType(flags), field, depth);
            && value.Bool?
            && (value.flag == false <==>
                exists i :: 0 <= i < |flags| && flags[i] == Some(false) && forall j :: 0 <= j < i ==> flags[j].None?)
  {
    FirstEnumExact(flags);
  }

  /**
   * A schema without a type is an object when it has properties; otherwise its hint decides, a value of
   * the hinted type being given for the four scalar hints and null for every other.
   */
  lemma AnyExact(env: Env, properties: Properties, required: seq<string>, hint: Option<string>, field: string,
                 depth: nat)
    requires depth <= MAX_DEPTH
    ensures var value := FromKind(env, AnyType(properties, required, hint), field, depth);
            && (value.Object? <==> properties != [])
            && (properties != [] ==> value == FromKind(env, ObjectType(properties, required), field, depth))
            && (properties == [] ==>
                 && (value == String(env.suggest("", field)) <==> hint == Some("string"))
                 && (value == Number(1.0) <==> hint in {Some("integer"), Some("number")})
                 && (value == Bool(true) <==> hint == Some("boolean"))
                 && (value.Null? <==> hint.None? || hint.value !in {"string", "integer", "number", "boolean"}))
  {
    hide Members, Shown;
  }

  /** An array of a known item type has one to five items, all alike, as many as `minItems` asks for in that range. */
  lemma ArrayExact(env: Env, item: RefOr<Schema>, minItems: Option<nat>, field: string, depth: nat)
    requires depth <= MAX_DEPTH
    ensures var value := FromKind(env, ArrayType(Some(item), minItems), field, depth);
            && value.Array? && 1 <= |value.items| <= 5
            && (minItems.None? ==> |value.items| == 1)
            && (minItems.Some? && 1 <= minItems.value <= 5 ==> |value.items| == minItems.value)
            && (minItems == Some(0) ==> |value.items| == 1)
            && (minItems.Some? && minItems.value > 5 ==> |value.items| == 5)
            && forall i :: 0 <= i < |value.items| ==> value.items[i] == Example(env, item, "item", depth + 1)
  {
    hide Example;
  }

  // ----- Nesting -----

  /** Every explicit example or default inside the schema nests at most `d` containers. */
  ghost predicate SchemaWithin(schema: Schema, d: nat)
    decreases schema, 2
  {
    && (schema.example.Some? ==> Depth(schema.example.value) <= d)
    && (schema.default.Some? ==> Depth(schema.default.value) <= d)
    && KindWithin(schema.kind, d)
  }

  ghost predicate RefWithin(r: RefOr<Schema>, d: nat)
    decreases r
  {
    r.Item? ==> SchemaWithin(r.value, d)
  }

  ghost predicate KindWithin(kind: Kind, d: nat)
    decreases kind
  {
    match kind
    case ArrayType(items, _) => items.Some? ==> RefWithin(items.value, d)
    case ObjectType(properties, _) => forall i :: 0 <= i < |properties| ==>
      (assert properties[i] in properties; RefWithin(properties[i].1, d))
    case AnyType(properties, _, _) => forall i :: 0 <= i < |properties| ==>
      (assert properties[i] in properties; RefWithin(properties[i].1, d))
    case _ => true
  }

  ghost predicate EnvWithin(env: Env, d: nat) {
    env.schemas.Some? ==> forall name :: name in env.schemas.value ==> RefWithin(env.schemas.value[name], d)
  }

  /** Containers an example made at this depth may nest. */
  function Bound(depth: nat, d: nat): nat {
    if depth > MAX_DEPTH then 0 else if d == 0 then Left(depth) else Left(depth) - 1 + d
  }

  lemma {:induction false} ResolvedWithin(env: Env, r: RefOr<Schema>, visited: set<string>, d: nat)
    requires EnvWithin(env, d) && RefWithin(r, d)
    ensures Resolve(r, SCHEMAS, env.schemas, visited).Some? ==>
            SchemaWithin(Resolve(r, SCHEMAS, env.schemas, visited).value, d)
    decreases Unvisited(env.schemas, visited)
  {
    if Resolve(r, SCHEMAS, env.schemas, visited).Some? && r.Reference? {
      var name := Strings.StripPrefix(r.reference, SCHEMAS).value;
      assert name in Unvisited(env.schemas, visited) && name !in Unvisited(env.schemas, visited + {name});
      ResolvedWithin(env, env.schemas.value[name], visited + {name}, d);
    }
  }

  lemma ContainerBound(value: Value, b: nat)
    requires forall i :: 0 <= i < |Children(value)| ==> Depth(Children(value)[i]) <= b
    ensures Depth(value) <= b + 1
  {
    DeepestExact(value, |Children(value)|);
  }

  /** Whatever the schemas, recursive ones included, generation nests no deeper than the bound. */
  lemma {:induction false} NestingBound(env: Env, r: RefOr<Schema>, field: string, depth: nat, d: nat)
    requires EnvWithin(env, d) && RefWithin(r, d)
    ensures Depth(Example(env, r, field, depth)) <= Bound(depth, d)
    decreases Left(depth), 2
  {
    ResolvedWithin(env, r, {}, d);
    if depth <= MAX_DEPTH && Resolve(r, SCHEMAS, env.schemas, {}).Some? {
      var schema := Resolve(r, SCHEMAS, env.schemas, {}).value;
      if schema.example.None? && schema.default.None? {
        KindBound(env, schema.kind, field, depth, d);
      }
    }
  }

  lemma {:induction false} KindBound(env: Env, kind: Kind, field: string, depth: nat, d: nat)
    requires EnvWithin(env, d) && KindWithin(kind, d) && depth <= MAX_DEPTH
    ensures Depth(FromKind(env, kind, field, depth)) <= Bound(depth, d)
    decreases Left(depth), 1
  {
    var value := FromKind(env, kind, field, depth);
    match kind
    case ArrayType(items, _) =>
      if items.Some? {
        NestingBound(env, items.value, "item", depth + 1, d);
      }
      ContainerBound(value, Bound(depth + 1, d));
    case ObjectType(properties, required) =>
      ObjectBound(env, properties, required, depth, d);
    case AnyType(properties, required, _) =>
      ObjectBound(env, properties, required, depth, d);
    case _ =>
  }

  lemma ObjectBound(env: Env, properties: Properties, required: seq<string>, depth: nat, d: nat)
    requires EnvWithin(env, d) && depth <= MAX_DEPTH
    requires forall i :: 0 <= i < |properties| ==> RefWithin(properties[i].1, d)
    ensures Depth(Object(Members(env, Shown(properties, required), depth))) <= Bound(depth, d)
    decreases Left(depth), 0, 1
  {
    var shown := Shown(properties, required);
    forall i | 0 <= i < |shown| ensures RefWithin(shown[i].1, d) {
      ShownIsProperty(properties, required, i);
      var k :| 0 <= k < |properties| && properties[k].1 == shown[i].1;
    }
    var members := Members(env, shown, depth);
    MembersBound(env, shown, depth, d);
    ContainerBound(Object(members), Bound(depth + 1, d));
  }

  lemma ShownIsProperty(properties: Properties, required: seq<string>, i: nat)
    requires i < |Shown(properties, required)|
    ensures exists k :: 0 <= k < |properties| && properties[k].1 == Shown(properties, required)[i].1
  {
    var first := RequiredOnes(properties, required);
    if i < |first| {
      RequiredIsProperty(properties, required, i);
    } else {
      var property := Optionals(properties, required)[i - |first|];
      OptionalsExact(properties, required, property);
    }
  }

  lemma {:induction false} RequiredIsProperty(properties: Properties, required: seq<string>, i: nat)
    requires i < |RequiredOnes(properties, required)|
    ensures RequiredOnes(properties, required)[i] in properties
  {
    var n := |required| - 1;
    var before := RequiredOnes(properties, required[..n]);
    if i < |before| {
      RequiredIsProperty(properties, required[..n], i);
    } else {
      LookupIn(properties, required[n]);
    }
  }

  lemma {:induction false} MembersBound(env: Env, shown: Properties, depth: nat, d: nat)
    requires EnvWithin(env, d) && depth <= MAX_DEPTH
    requires forall i :: 0 <= i < |shown| ==> RefWithin(shown[i].1, d)
    ensures forall i :: 0 <= i < |Members(env, shown, depth)| ==>
            Depth(Members(env, shown, depth)[i].1) <= Bound(depth + 1, d)
    decreases Left(depth), 0, 0, |shown|
  {
    if shown != [] {
      var last, before := shown[|shown| - 1], shown[..|shown| - 1];
      MembersBound(env, before, depth, d);
      NestingBound(env, last.1, last.0, depth + 1, d);
      PutBound(Members(env, before, depth), last.0, Example(env, last.1, last.0, depth + 1), Bound(depth + 1, d));
    }
  }

  lemma {:induction false} PutBound(entries: seq<(string, Value)>, name: string, value: Value, b: nat)
    requires Depth(value) <= b && forall i :: 0 <= i < |entries| ==> Depth(entries[i].1) <= b
    ensures forall i :: 0 <= i < |Put(entries, name, value)| ==> Depth(Put(entries, name, value)[i].1) <= b
  {
    if entries != [] {
      PutBound(entries[..|entries| - 1], name, value, b);
    }
  }

  /** Without explicit examples or defaults, a generated body nests at most six containers. */
  lemma BodyNesting(env: Env, r: RefOr<Schema>)
    requires EnvWithin(env, 0) && RefWithin(r, 0)
    ensures Depth(Example(env, r, "body", 0)) <= 6
  {
    NestingBound(env, r, "body", 0, 0);
  }

  /** The schema named `A`, an object whose one property is `A` again. */
  function SelfSchema(): Schema {
    Schema(None, None, ObjectType([("a", Reference(SCHEMAS + "A"))], ["a"]))
  }

  function SelfEnv(suggest: (string, string) -> string): Env {
    Env(Some(map["A" := Item(SelfSchema())]), suggest)
  }

  lemma SelfResolves(suggest: (string, string) -> string)
    ensures Resolve(Reference(SCHEMAS + "A"), SCHEMAS, SelfEnv(suggest).schemas, {}) == Some(SelfSchema())
  {
    hide SelfSchema;
    var self, schemas := Reference(SCHEMAS + "A"), SelfEnv(suggest).schemas;
    assert Next(self, SCHEMAS, schemas) == Some(Item(SelfSchema()));
    assert Reaches(Item(SelfSchema()), SCHEMAS, schemas, 0, SelfSchema());
    assert Reaches(self, SCHEMAS, schemas, 1, SelfSchema());
    ResolveExact(self, SCHEMAS, schemas, SelfSchema());
  }

  lemma SelfShown(property: RefOr<Schema>)
    ensures Shown([("a", property)], ["a"]) == [("a", property)]
  {
    var properties := [("a", property)];
    assert properties[..0] == [] && ["a"][..0] == [];
    assert RequiredOnes(properties, ["a"]) == properties;
    assert Optionals(properties, ["a"]) == [];
  }

  lemma SelfExample(suggest: (string, string) -> string, field: string, depth: nat)
    requires depth <= MAX_DEPTH
    ensures var self, env := Reference(SCHEMAS + "A"), SelfEnv(suggest);
            Example(env, self, field, depth) == Object([("a", Example(env, self, "a", depth + 1))])
  {
    var self, env := Reference(SCHEMAS + "A"), SelfEnv(suggest);
    SelfResolves(suggest);
    SelfShown(self);
    hide Shown, Resolve, SelfEnv;
    var properties := [("a", self)];
    assert properties[..0] == [];
    assert Members(env, properties, depth) == [("a", Example(env, self, "a", depth + 1))];
    assert FromKind(env, SelfSchema().kind, field, depth) == Object(Members(env, properties, depth));
    assert FromSchema(env, SelfSchema(), field, depth) == FromKind(env, SelfSchema().kind, field, depth);
  }

  lemma OneMember(inner: Value)
    ensures Depth(Object([("a", inner)])) == Depth(inner) + 1
  {
    var value := Object([("a", inner)]);
    assert Children(value) == [inner];
    DeepestExact(value, 1);
  }

  /** That schema reaches the bound at every depth. */
  lemma {:induction false} SelfReferenceNests(suggest: (string, string) -> string, field: string, depth: nat)
    ensures Depth(Example(SelfEnv(suggest), Reference(SCHEMAS + "A"), field, depth)) == Bound(depth, 0)
    decreases Left(depth)
  {
    if depth <= MAX_DEPTH {
      SelfReferenceNests(suggest, "a", depth + 1);
      SelfExample(suggest, field, depth);
      OneMember(Example(SelfEnv(suggest), Reference(SCHEMAS + "A"), "a", depth + 1));
    }
  }
}
