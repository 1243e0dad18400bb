/**
 * The back office builds its edit forms from a catalogue entry's JSON Schema. These are
 * the schema helpers behind the form: resolving an internal `$ref`, recognising and
 * stripping nullable types, choosing an `<input>` type, turning a property key into a
 * label, and converting a submitted form value back into JSON. Property access on
 * `null` throws in JavaScript; here it is a `Failure`, as is calling an array method on
 * something that is not an array.
 */
module SchemaForm {
  import opened Wrappers
  import opened Text
  import opened Seqs
  import opened Json
  import opened JsNumber

  const TypeError: string := "TypeError"

  // ---------------------------------------------------------------- resolveRef

  /**
   * The value at the end of the path, or `None` as soon as a segment is missing. Each step
   * is `resolved && typeof resolved === "object" && segment in resolved`, then
   * `resolved[segment]`, so `null` and every non-object value stop the walk.
   */
  function Follow(j: Json, path: seq<string>): Option<Json>
    decreases |path|
  {
    if |path| == 0 then Some(j)
    else
      var next := Step(j, path[0]);
      if next.Some? then Follow(next.value, path[1..]) else None
  }

  /** Every item's result, or the first failure, as `Array.prototype.map` stops at the first throw. */
  function Collect(rs: seq<Result<Json, string>>): (r: Result<seq<Json>, string>)
    ensures r.Success? <==> forall i :: 0 <= i < |rs| ==> rs[i].Success?
    ensures r.Success? ==> |r.value| == |rs| && forall i :: 0 <= i < |rs| ==> r.value[i] == rs[i].value
    decreases |rs|
  {
    if |rs| == 0 then Success([])
    else if rs[0].Failure? then Failure(rs[0].error)
    else
      var rest := Collect(rs[1..]);
      assert forall i :: 1 <= i < |rs| ==> rs[i] == rs[1..][i - 1];
      if rest.Failure? then Failure(rest.error)
      else
        var r := [rs[0].value] + rest.value;
        assert forall i :: 1 <= i < |rs| ==> r[i] == rest.value[i - 1];
        Success(r)
  }

  /**
   * `resolveRef(definition, schema)`. A truthy `$ref` that starts with `#/` is split on
   * `/` and walked from the root schema; a missing segment or a falsy target gives the
   * definition back. Any other `$ref` is left alone. Without `$ref`, the members of a
   * truthy `anyOf` (else `oneOf`) are resolved one by one and put back under that key.
   */
  function ResolveRef(definition: Json, schema: Json): (r: Result<Json, string>)
    ensures r.Success? && !definition.JObj? ==> r.value == definition
    decreases definition
  {
    if definition.JNull? then Failure(TypeError)
    else
      var ref := Prop(definition, "$ref");
      if TruthyOpt(ref) then
        if !ref.value.JStr? then Failure(TypeError)
        else if !StartsWith(ref.value.s, "#/") then Success(definition)
        else
          var target := Follow(schema, Split(ref.value.s[2..], "/"));
          Success(if TruthyOpt(target) then target.value else definition)
      else
        var any := Prop(definition, "anyOf");
        var one := Prop(definition, "oneOf");
        if TruthyOpt(any) || TruthyOpt(one) then
          var key := if TruthyOpt(any) then "anyOf" else "oneOf";
          var schemas := if TruthyOpt(any) then any.value else one.value;
          if !schemas.JArr? then Failure(TypeError)
          else
            var resolved := ResolveAll(schemas.items, schema);
            if resolved.Failure? then Failure(resolved.error)
            else Success(JObj(Put(definition.members, key, JArr(resolved.value))))
        else Success(definition)
  }

  /** `schemas.map((subSchema) => resolveRef(subSchema, schema))`. */
  function ResolveAll(items: seq<Json>, schema: Json): (r: Result<seq<Json>, string>)
    ensures r.Success? <==> forall i :: 0 <= i < |items| ==> ResolveRef(items[i], schema).Success?
    ensures r.Success? ==> (|r.value| == |items| &&
      forall i :: 0 <= i < |items| ==> r.value[i] == ResolveRef(items[i], schema).value)
    decreases JArr(items)
  {
    var rs := seq(|items|, i requires 0 <= i < |items| => ResolveRef(items[i], schema));
    assert forall i :: 0 <= i < |items| ==> rs[i] == ResolveRef(items[i], schema);
    Collect(rs)
  }

  /** A definition with only a `$ref` to the given internal path. */
  function RefTo(path: seq<string>): Json
  {
    JObj([("$ref", JStr("#/" + Join(path, "/")))])
  }

  /** A schema that nests `v` under the keys of the path, outermost first. */
  function Nest(path: seq<string>, v: Json): Json
    decreases |path|
  {
    if |path| == 0 then v else JObj([(path[0], Nest(path[1..], v))])
  }

  /** Walking the path a nested schema was built from reaches the nested value. */
  lemma {:induction false} FollowNest(path: seq<string>, v: Json)
    ensures Follow(Nest(path, v), path) == Some(v)
    decreases |path|
  {
    if |path| > 0 {
      FollowNest(path[1..], v);
      assert Step(Nest(path, v), path[0]) == Some(Nest(path[1..], v));
    }
  }

  /** Walking a concatenated path is walking the first part, then the rest from there. */
  lemma {:induction false} FollowAppend(j: Json, p: seq<string>, q: seq<string>)
    ensures Follow(j, p + q) == if Follow(j, p).Some? then Follow(Follow(j, p).value, q) else None
    decreases |p|
  {
    if |p| == 0 {
      assert p + q == q;
    } else {
      assert (p + q)[0] == p[0] && (p + q)[1..] == p[1..] + q;
      var next := Step(j, p[0]);
      if next.Some? {
        FollowAppend(next.value, p[1..], q);
      }
    }
  }

  /** The walk gives up at the first missing segment, whatever follows it. */
  lemma FollowStops(j: Json, p: seq<string>, seg: string, rest: seq<string>)
    requires Follow(j, p).Some? && Step(Follow(j, p).value, seg).None?
    ensures Follow(j, p + [seg] + rest) == None
  {
    FollowAppend(j, p, [seg] + rest);
    assert p + [seg] + rest == p + ([seg] + rest);
  }

  /** A `$ref` that is not internal leaves the definition as it is. */
  lemma ResolveRefExternal(definition: Json, schema: Json, ref: string)
    requires definition.JObj? && Prop(definition, "$ref") == Some(JStr(ref))
    requires ref != "" && !StartsWith(ref, "#/")
    ensures ResolveRef(definition, schema) == Success(definition)
  {
  }

  /**
   * An internal `$ref` to a slash-free path resolves to the value at the end of the
   * walk when it is truthy, and to the definition itself otherwise.
   */
  lemma ResolveRefFollows(definition: Json, schema: Json, path: seq<string>)
    requires |path| > 0 && forall i :: 0 <= i < |path| ==> !Contains(path[i], "/")
    requires definition.JObj? && Prop(definition, "$ref") == Some(JStr("#/" + Join(path, "/")))
    ensures ResolveRef(definition, schema) ==
              Success(if TruthyOpt(Follow(schema, path)) then Follow(schema, path).value else definition)
  {
    var ref := "#/" + Join(path, "/");
    assert ref[..2] == "#/";
    assert ref[2..] == Join(path, "/");
    SplitOfJoin(path, "/");
    ResolveRefInternal(definition, schema, ref);
  }

  /** One unfolding of the internal-reference branch. */
  lemma ResolveRefInternal(definition: Json, schema: Json, ref: string)
    requires definition.JObj? && Prop(definition, "$ref") == Some(JStr(ref)) && StartsWith(ref, "#/")
    ensures var target := Follow(schema, Split(ref[2..], "/"));
      ResolveRef(definition, schema) == Success(if TruthyOpt(target) then target.value else definition)
  {
  }

  /** A reference to a path of a nested schema resolves to the truthy value stored there. */
  lemma RefRoundTrip(path: seq<string>, v: Json)
    requires |path| > 0 && forall i :: 0 <= i < |path| ==> !Contains(path[i], "/")
    requires Truthy(v)
    ensures ResolveRef(RefTo(path), Nest(path, v)) == Success(v)
  {
    FollowNest(path, v);
    ResolveRefFollows(RefTo(path), Nest(path, v), path);
  }

  /** A reference whose path is missing from the schema gives the definition back. */
  lemma RefMissing(definition: Json, schema: Json, p: seq<string>, seg: string, rest: seq<string>)
    requires forall i :: 0 <= i < |p + [seg] + rest| ==> !Contains((p + [seg] + rest)[i], "/")
    requires definition.JObj? && Prop(definition, "$ref") == Some(JStr("#/" + Join(p + [seg] + rest, "/")))
    requires Follow(schema, p).Some? && Step(Follow(schema, p).value, seg).None?
    ensures ResolveRef(definition, schema) == Success(definition)
  {
    FollowStops(schema, p, seg, rest);
    ResolveRefFollows(definition, schema, p + [seg] + rest);
  }

  /** Neither `$ref` nor `anyOf`/`oneOf`: the definition comes back unchanged. */
  lemma ResolveRefPlain(definition: Json, schema: Json)
    requires !definition.JNull?
    requires !TruthyOpt(Prop(definition, "$ref"))
    requires !TruthyOpt(Prop(definition, "anyOf")) && !TruthyOpt(Prop(definition, "oneOf"))
    ensures ResolveRef(definition, schema) == Success(definition)
  {
  }

  /**
   * With an `anyOf` list and no `$ref`, each member is resolved on its own and the list
   * is put back in place; every other key keeps its position and value. One failing
   * member fails the whole call.
   */
  lemma ResolveRefAnyOf(definition: Json, schema: Json)
    requires definition.JObj? && !TruthyOpt(Prop(definition, "$ref"))
    requires Prop(definition, "anyOf").Some? && Prop(definition, "anyOf").value.JArr?
    ensures var items := Prop(definition, "anyOf").value.items;
      var r := ResolveRef(definition, schema);
      (r.Success? <==> forall i :: 0 <= i < |items| ==> ResolveRef(items[i], schema).Success?) &&
      (r.Success? ==>
        r.value.JObj? &&
        |r.value.members| == |definition.members| &&
        (forall i :: 0 <= i < |definition.members| ==> r.value.members[i].0 == definition.members[i].0) &&
        (forall k :: k != "anyOf" ==> Prop(r.value, k) == Prop(definition, k)) &&
        Prop(r.value, "anyOf").Some? && Prop(r.value, "anyOf").value.JArr? &&
        |Prop(r.value, "anyOf").value.items| == |items| &&
        forall i :: 0 <= i < |items| ==>
          Prop(r.value, "anyOf").value.items[i] == ResolveRef(items[i], schema).value)
  {
    var items := Prop(definition, "anyOf").value.items;
    var resolved := ResolveAll(items, schema);
    ResolveRefAnyOfStep(definition, schema);
    if resolved.Success? {
      var v := JArr(resolved.value);
      PutKeys(definition.members, "anyOf", v);
      forall k
        ensures Member(Put(definition.members, "anyOf", v), k) == if k == "anyOf" then Some(v) else Member(definition.members, k)
      {
        PutMember(definition.members, "anyOf", v, k);
      }
    }
  }

  /** One unfolding of the anyOf branch: the resolved list is written over the old one. */
  lemma ResolveRefAnyOfStep(definition: Json, schema: Json)
    requires definition.JObj? && !TruthyOpt(Prop(definition, "$ref"))
    requires Prop(definition, "anyOf").Some? && Prop(definition, "anyOf").value.JArr?
    ensures var resolved := ResolveAll(Prop(definition, "anyOf").value.items, schema);
      ResolveRef(definition, schema) ==
        if resolved.Failure? then Failure(resolved.error)
        else Success(JObj(Put(definition.members, "anyOf", JArr(resolved.value))))
  {
    assert TruthyOpt(Prop(definition, "anyOf"));
  }

  // ---------------------------------------------------------------- nullable types

  /** `schema.type === "null"`. */
  predicate HasNullType(s: Json)
  {
    Prop(s, "type") == Some(JStr("null"))
  }

  /** `schemas.some((schema) => schema.type === "null")`: stops at the first match, throws on a `null` member before it. */
  function SomeNullType(items: seq<Json>): (r: Result<bool, string>)
    decreases |items|
  {
    if |items| == 0 then Success(false)
    else if items[0].JNull? then Failure(TypeError)
    else if HasNullType(items[0]) then Success(true)
    else SomeNullType(items[1..])
  }

  /** The anyOf list, else the oneOf list, when either is truthy; `None` when neither is. */
  function Alternatives(definition: Json): Option<Json>
  {
    var any := Prop(definition, "anyOf");
    var one := Prop(definition, "oneOf");
    if TruthyOpt(any) then any else if TruthyOpt(one) then one else None
  }

  /** `isNullableType(definition)`. */
  function IsNullable(definition: Json): (r: Result<bool, string>)
    ensures r.Failure? ==> !(Prop(definition, "type").Some? && Prop(definition, "type").value.JArr?)
  {
    if definition.JNull? then Failure(TypeError)
    else
      var t := Prop(definition, "type");
      if t.Some? && t.value.JArr? then Success(JStr("null") in t.value.items)
      else
        var alts := Alternatives(definition);
        if alts.None? then Success(false)
        else if !alts.value.JArr? then Failure(TypeError)
        else SomeNullType(alts.value.items)
  }

  /** On a list without `null` members the scan answers whether some member is typed "null". */
  lemma {:induction false} SomeNullTypeIff(items: seq<Json>)
    requires forall i :: 0 <= i < |items| ==> !items[i].JNull?
    ensures SomeNullType(items) == Success(exists i :: 0 <= i < |items| && HasNullType(items[i]))
    decreases |items|
  {
    if |items| > 0 {
      SomeNullTypeIff(items[1..]);
      assert forall i :: 1 <= i < |items| ==> items[i] == items[1..][i - 1];
      if !HasNullType(items[0]) {
        assert (exists i :: 0 <= i < |items| && HasNullType(items[i])) <==>
               (exists i :: 0 <= i < |items[1..]| && HasNullType(items[1..][i]));
      }
    }
  }

  /** A "null"-typed member before any `null` member settles the answer, whatever comes after. */
  lemma {:induction false} SomeNullTypeEarly(items: seq<Json>, k: nat)
    requires k < |items| && HasNullType(items[k])
    requires forall i :: 0 <= i < k ==> !items[i].JNull?
    ensures SomeNullType(items) == Success(true)
    decreases k
  {
    if k > 0 && !HasNullType(items[0]) {
      SomeNullTypeEarly(items[1..], k - 1);
    }
  }

  /**
   * Nullable exactly when the type list contains "null", or, without a type list, some
   * member of the anyOf/oneOf list is typed "null".
   */
  lemma IsNullableIff(definition: Json)
    requires definition.JObj?
    requires var alts := Alternatives(definition);
      alts.Some? && alts.value.JArr? ==> forall i :: 0 <= i < |alts.value.items| ==> !alts.value.items[i].JNull?
    ensures var t := Prop(definition, "type");
      var alts := Alternatives(definition);
      IsNullable(definition) == Success(
        if t.Some? && t.value.JArr? then JStr("null") in t.value.items
        else alts.Some? && alts.value.JArr? && exists i :: 0 <= i < |alts.value.items| && HasNullType(alts.value.items[i]))
      || (!(t.Some? && t.value.JArr?) && alts.Some? && !alts.value.JArr? && IsNullable(definition).Failure?)
  {
    var alts := Alternatives(definition);
    if alts.Some? && alts.value.JArr? {
      SomeNullTypeIff(alts.value.items);
    }
  }

  // ---------------------------------------------------------------- non-null definitions

  /** `(type) => type !== "null"`. */
  function NotNullName(): Json -> bool
  {
    (t: Json) => t != JStr("null")
  }

  /**
   * `schemas.find((schema) => schema.type !== "null")`: the first member not typed "null",
   * throwing on a `null` member met first.
   */
  function FirstNonNull(items: seq<Json>): (r: Result<Option<Json>, string>)
    decreases |items|
  {
    if |items| == 0 then Success(None)
    else if items[0].JNull? then Failure(TypeError)
    else if !HasNullType(items[0]) then Success(Some(items[0]))
    else FirstNonNull(items[1..])
  }

  /** The own enumerable members a spread copies: an object's members, an array's or a string's indices. */
  function OwnMembers(j: Json): seq<(string, Json)>
  {
    match j
    case JObj(ms) => ms
    case JArr(items) => seq(|items|, i requires 0 <= i < |items| => (NatToString(i), items[i]))
    case JStr(s) => seq(|s|, i requires 0 <= i < |s| => (NatToString(i), JStr([s[i]])))
    case _ => []
  }

  /**
   * `getNonNullDefinition(definition)`. A type list loses "null" and collapses to its one
   * remaining type. Otherwise the first anyOf/oneOf member not typed "null" is spread over
   * the parent without its anyOf and oneOf; a list with no such member leaves the definition.
   */
  function NonNull(definition: Json): (r: Result<Json, string>)
  {
    if definition.JNull? then Failure(TypeError)
    else
      var t := Prop(definition, "type");
      if t.Some? && t.value.JArr? then
        var rest := Filter(t.value.items, NotNullName());
        Success(JObj(Put(definition.members, "type", if |rest| == 1 then rest[0] else JArr(rest))))
      else
        var alts := Alternatives(definition);
        if alts.None? then Success(definition)
        else if !alts.value.JArr? then Failure(TypeError)
        else
          var found := FirstNonNull(alts.value.items);
          if found.Failure? then Failure(found.error)
          else if TruthyOpt(found.value) then
            Success(JObj(Spread(Without(OwnMembers(definition), {"anyOf", "oneOf"}), OwnMembers(found.value.value))))
          else Success(definition)
  }

  /** The first member not typed "null", when the list has no `null` member before it. */
  lemma {:induction false} FirstNonNullFinds(items: seq<Json>, k: nat)
    requires k < |items| && !items[k].JNull? && !HasNullType(items[k])
    requires forall i :: 0 <= i < k ==> !items[i].JNull? && HasNullType(items[i])
    ensures FirstNonNull(items) == Success(Some(items[k]))
    decreases k
  {
    if k > 0 {
      FirstNonNullFinds(items[1..], k - 1);
    }
  }

  /** A list whose members are all typed "null" has nothing to find. */
  lemma {:induction false} FirstNonNullNone(items: seq<Json>)
    requires forall i :: 0 <= i < |items| ==> HasNullType(items[i])
    ensures FirstNonNull(items) == Success(None)
    decreases |items|
  {
    if |items| > 0 {
      FirstNonNullNone(items[1..]);
    }
  }

  /**
   * A type list keeps every key in place; its "null" entries go, every other entry stays
   * in order, and a single survivor replaces the list.
   */
  lemma NonNullTypeList(definition: Json)
    requires definition.JObj? && Prop(definition, "type").Some? && Prop(definition, "type").value.JArr?
    ensures var ts := Prop(definition, "type").value.items;
      var rest := Filter(ts, NotNullName());
      var r := NonNull(definition);
      r.Success? && r.value.JObj? &&
      |r.value.members| == |definition.members| &&
      (forall i :: 0 <= i < |definition.members| ==> r.value.members[i].0 == definition.members[i].0) &&
      (forall k :: k != "type" ==> Prop(r.value, k) == Prop(definition, k)) &&
      (forall x :: x in rest <==> x in ts && x != JStr("null")) &&
      Prop(r.value, "type") == Some(if |rest| == 1 then rest[0] else JArr(rest))
  {
    var ts := Prop(definition, "type").value.items;
    var rest := Filter(ts, NotNullName());
    var v := if |rest| == 1 then rest[0] else JArr(rest);
    PutKeys(definition.members, "type", v);
    forall k
      ensures Member(Put(definition.members, "type", v), k) == if k == "type" then Some(v) else Member(definition.members, k)
    {
      PutMember(definition.members, "type", v, k);
    }
  }

  /** After stripping a list of type names, a definition with no anyOf/oneOf is no longer nullable. */
  lemma NonNullNotNullable(definition: Json)
    requires definition.JObj? && Prop(definition, "type").Some? && Prop(definition, "type").value.JArr?
    requires forall i :: 0 <= i < |Prop(definition, "type").value.items| ==> Prop(definition, "type").value.items[i].JStr?
    requires Alternatives(definition).None?
    ensures NonNull(definition).Success? && IsNullable(NonNull(definition).value) == Success(false)
  {
    NonNullKeepsAlternatives(definition);
    var r := NonNull(definition).value;
    var ts := Prop(definition, "type").value.items;
    var rest := Filter(ts, NotNullName());
    if |rest| == 1 {
      assert rest[0] in ts;
      NotNullableByType(r);
    } else {
      assert JStr("null") !in rest;
      NotNullableByList(r, rest);
    }
  }

  /** Stripping a type list rewrites `type` and leaves the alternatives alone. */
  lemma NonNullKeepsAlternatives(definition: Json)
    requires definition.JObj? && Prop(definition, "type").Some? && Prop(definition, "type").value.JArr?
    ensures var ts := Prop(definition, "type").value.items;
      var rest := Filter(ts, NotNullName());
      var r := NonNull(definition);
      r.Success? && r.value.JObj? &&
      (forall x :: x in rest <==> x in ts && x != JStr("null")) &&
      Prop(r.value, "type") == Some(if |rest| == 1 then rest[0] else JArr(rest)) &&
      Alternatives(r.value) == Alternatives(definition)
  {
    var ts := Prop(definition, "type").value.items;
    var rest := Filter(ts, NotNullName());
    var v := if |rest| == 1 then rest[0] else JArr(rest);
    var put := Put(definition.members, "type", v);
    NonNullOfTypeList(definition);
    PutMember(definition.members, "type", v, "type");
    PutMember(definition.members, "type", v, "anyOf");
    PutMember(definition.members, "type", v, "oneOf");
    SameAlternatives(JObj(put), definition);
  }

  lemma NonNullOfTypeList(definition: Json)
    requires definition.JObj? && Prop(definition, "type").Some? && Prop(definition, "type").value.JArr?
    ensures var rest := Filter(Prop(definition, "type").value.items, NotNullName());
      NonNull(definition) == Success(JObj(Put(definition.members, "type", if |rest| == 1 then rest[0] else JArr(rest))))
  {
  }

  lemma SameAlternatives(a: Json, b: Json)
    requires Prop(a, "anyOf") == Prop(b, "anyOf") && Prop(a, "oneOf") == Prop(b, "oneOf")
    ensures Alternatives(a) == Alternatives(b)
  {
  }

  /** A single type name and no alternatives: not nullable. */
  lemma NotNullableByType(d: Json)
    requires d.JObj? && Prop(d, "type").Some? && !Prop(d, "type").value.JArr? && Alternatives(d).None?
    ensures IsNullable(d) == Success(false)
  {
  }

  /** A type list without "null": not nullable. */
  lemma NotNullableByList(d: Json, names: seq<Json>)
    requires d.JObj? && Prop(d, "type") == Some(JArr(names)) && JStr("null") !in names
    ensures IsNullable(d) == Success(false)
  {
  }

  /**
   * With no type list, the chosen non-null member is spread over the parent: its own keys
   * win, the parent's other keys stay, and the parent's anyOf and oneOf are gone unless the
   * member brings its own.
   */
  lemma NonNullMerge(definition: Json, k: nat)
    requires definition.JObj? && !(Prop(definition, "type").Some? && Prop(definition, "type").value.JArr?)
    requires Alternatives(definition).Some? && Alternatives(definition).value.JArr?
    requires var items := Alternatives(definition).value.items;
      k < |items| && items[k].JObj? && !HasNullType(items[k]) && UniqueKeys(items[k].members) &&
      forall i :: 0 <= i < k ==> !items[i].JNull? && HasNullType(items[i])
    ensures var member := Alternatives(definition).value.items[k];
      var r := NonNull(definition);
      r.Success? && r.value.JObj? &&
      forall key :: Prop(r.value, key) ==
        if Prop(member, key).Some? then Prop(member, key)
        else if key == "anyOf" || key == "oneOf" then None
        else Prop(definition, key)
  {
    var member := Alternatives(definition).value.items[k];
    var parent := Without(definition.members, {"anyOf", "oneOf"});
    NonNullMergeStep(definition, k);
    forall key
      ensures Member(Spread(parent, member.members), key) ==
        if Member(member.members, key).Some? then Member(member.members, key)
        else if key == "anyOf" || key == "oneOf" then None
        else Member(definition.members, key)
    {
      SpreadMember(parent, member.members, key);
      WithoutMember(definition.members, {"anyOf", "oneOf"}, key);
    }
  }

  /** One unfolding of the anyOf/oneOf branch: the member found is spread over the parent. */
  lemma NonNullMergeStep(definition: Json, k: nat)
    requires definition.JObj? && !(Prop(definition, "type").Some? && Prop(definition, "type").value.JArr?)
    requires Alternatives(definition).Some? && Alternatives(definition).value.JArr?
    requires var items := Alternatives(definition).value.items;
      k < |items| && items[k].JObj? && !HasNullType(items[k]) &&
      forall i :: 0 <= i < k ==> !items[i].JNull? && HasNullType(items[i])
    ensures NonNull(definition) == Success(JObj(Spread(Without(definition.members, {"anyOf", "oneOf"}),
                                                       Alternatives(definition).value.items[k].members)))
  {
    var alts := Alternatives(definition);
    var items := alts.value.items;
    FirstNonNullFinds(items, k);
    NonNullFound(definition, alts, items[k]);
  }

  /** The anyOf/oneOf branch once the scan has found an object member. */
  lemma NonNullFound(definition: Json, alts: Option<Json>, found: Json)
    requires definition.JObj? && !(Prop(definition, "type").Some? && Prop(definition, "type").value.JArr?)
    requires alts == Alternatives(definition) && alts.Some? && alts.value.JArr?
    requires FirstNonNull(alts.value.items) == Success(Some(found)) && found.JObj?
    ensures NonNull(definition) == Success(JObj(Spread(Without(definition.members, {"anyOf", "oneOf"}), found.members)))
  {
    assert OwnMembers(definition) == definition.members;
    assert OwnMembers(found) == found.members;
  }

  /** A list whose members are all typed "null" leaves the definition as it is. */
  lemma NonNullAllNull(definition: Json)
    requires definition.JObj? && !(Prop(definition, "type").Some? && Prop(definition, "type").value.JArr?)
    requires Alternatives(definition).Some? && Alternatives(definition).value.JArr?
    requires var items := Alternatives(definition).value.items;
      forall i :: 0 <= i < |items| ==> HasNullType(items[i])
    ensures NonNull(definition) == Success(definition)
  {
    FirstNonNullNone(Alternatives(definition).value.items);
  }

  // ---------------------------------------------------------------- input types

  /** The `format` keywords the form knows, each with the `<input type>` it gets. */
  const InputTypes: seq<(string, string)> := [
    ("email", "email"), ("uri", "url"), ("url", "url"), ("date", "date"), ("time", "time"),
    ("date-time", "datetime-local"), ("password", "password"), ("color", "color")
  ]

  /** `getStringInputType(format)`: a `switch` with strict comparison, "text" by default. */
  function StringInputType(format: Option<Json>): string
  {
    if format.None? || !format.value.JStr? then "text"
    else
      var f := format.value.s;
      if f == "email" then "email"
      else if f == "uri" || f == "url" then "url"
      else if f == "date" then "date"
      else if f == "time" then "time"
      else if f == "date-time" then "datetime-local"
      else if f == "password" then "password"
      else if f == "color" then "color"
      else "text"
  }

  /** The input type listed for a format, "text" for a format not listed. */
  function LookupInputType(table: seq<(string, string)>, f: string): string
    decreases |table|
  {
    if |table| == 0 then "text"
    else if table[0].0 == f then table[0].1
    else LookupInputType(table[1..], f)
  }

  /** The switch agrees with the table for every string format, and anything else is plain text. */
  lemma StringInputTypeTable(format: Option<Json>)
    ensures StringInputType(format) ==
              if format.Some? && format.value.JStr? then LookupInputType(InputTypes, format.value.s) else "text"
  {
    if format.Some? && format.value.JStr? {
      var f := format.value.s;
      var t := InputTypes;
      LookupHead(t, f);
      LookupHead(t[1..], f);
      LookupHead(t[2..], f);
      LookupHead(t[3..], f);
      assert t[3..][1..] == t[4..];
      LookupLater(f);
    }
  }

  lemma LookupHead(t: seq<(string, string)>, f: string)
    requires |t| > 0
    ensures LookupInputType(t, f) == if t[0].0 == f then t[0].1 else LookupInputType(t[1..], f)
  {
  }

  /** The second half of the table. */
  lemma LookupLater(f: string)
    ensures LookupInputType(InputTypes[4..], f) ==
      if f == "time" then "time"
      else if f == "date-time" then "datetime-local"
      else if f == "password" then "password"
      else if f == "color" then "color"
      else "text"
  {
    var t := InputTypes[4..];
    LookupHead(t, f);
    LookupHead(t[1..], f);
    LookupHead(t[2..], f);
    LookupHead(t[3..], f);
    assert t[3..][1..] == [];
  }

  /** Only the listed formats leave plain text. */
  lemma StringInputTypeText(f: string)
    ensures StringInputType(Some(JStr(f))) != "text" <==>
              f in {"email", "uri", "url", "date", "time", "date-time", "password", "color"}
  {
  }

  // ---------------------------------------------------------------- labels

  /** A regular-expression `\w` character without the `u` flag. */
  predicate IsWordChar(c: char)
  {
    'a' <= c <= 'z' || 'A' <= c <= 'Z' || '0' <= c <= '9' || c == '_'
  }

  /** `\b\w` matches at `i`: a word character with no word character before it. */
  predicate WordStart(s: string, i: nat)
    requires i < |s|
  {
    IsWordChar(s[i]) && (i == 0 || !IsWordChar(s[i - 1]))
  }

  /** `.replace(/\b\w/g, (l) => l.toUpperCase())`. */
  function CapitalizeWords(s: string): (r: string)
    ensures |r| == |s|
  {
    seq(|s|, i requires 0 <= i < |s| => if WordStart(s, i) then UpperChar(s[i]) else s[i])
  }

  /** `formatLabel(key)`: `_` and `-` become spaces, then every word starts upper-case. */
  function FormatLabel(key: string): (r: string)
    ensures |r| == |key|
  {
    CapitalizeWords(ReplaceChars(key, {'_', '-'}, ' '))
  }

  /**
   * The label has a space wherever the key had `_` or `-`, keeps every other character up
   * to case, upper-cases the first character of each word, and leaves the rest as written.
   */
  lemma FormatLabelChars(key: string)
    ensures var r := FormatLabel(key);
      var spaced := ReplaceChars(key, {'_', '-'}, ' ');
      forall i :: 0 <= i < |key| ==>
        (key[i] == '_' || key[i] == '-' ==> r[i] == ' ') &&
        (key[i] != '_' && key[i] != '-' ==> LowerChar(r[i]) == LowerChar(key[i])) &&
        (WordStart(spaced, i) ==> r[i] == UpperChar(key[i])) &&
        (!WordStart(spaced, i) ==> r[i] == spaced[i])
  {
  }

  /** A label contains no `_` or `-`. */
  lemma FormatLabelClean(key: string)
    ensures '_' !in FormatLabel(key) && '-' !in FormatLabel(key)
  {
    var r := FormatLabel(key);
    assert forall i :: 0 <= i < |r| ==> r[i] != '_' && r[i] != '-';
  }

  /** Formatting a label again changes nothing. */
  lemma FormatLabelIdempotent(key: string)
    ensures FormatLabel(FormatLabel(key)) == FormatLabel(key)
  {
    var r := FormatLabel(key);
    var spaced := ReplaceChars(key, {'_', '-'}, ' ');
    FormatLabelClean(key);
    ReplaceCharsAbsent(r, {'_', '-'}, ' ');
    assert forall i :: 0 <= i < |r| ==> IsWordChar(r[i]) == IsWordChar(spaced[i]);
    assert forall i :: 0 <= i < |r| ==> WordStart(r, i) == WordStart(spaced, i);
  }

  // ---------------------------------------------------------------- submitted values

  /**
   * What `convertValue` returns: `null`, a float from `parseFloat` (kept abstract), an
   * integer or `NaN` (`None`), a boolean, a parsed JSON value or the text as submitted.
   */
  datatype Converted<F> =
    | CNull
    | CFloat(f: F)
    | CInt(n: Option<int>)
    | CBool(b: bool)
    | CJson(j: Json)
    | CText(s: string)

  /**
   * `convertValue(value, definition)`: a missing or empty value is `null`; then the
   * definition's `type` decides. `parseFloat` and `JSON.parse` are parameters; a failed
   * `JSON.parse` is `None`.
   */
  function ConvertValue<F>(value: Option<string>, definition: Option<Json>,
                           parseFloat: string -> F, parseJson: string -> Option<Json>): Converted<F>
  {
    if value.None? || value.value == "" then CNull
    else
      var v := value.value;
      var t := if definition.Some? then Prop(definition.value, "type") else None;
      if t == Some(JStr("number")) then CFloat(parseFloat(v))
      else if t == Some(JStr("integer")) then CInt(ParseDecimal(v))
      else if t == Some(JStr("boolean")) then CBool(v == "on" || v == "true")
      else if (StartsWith(v, "{") || StartsWith(v, "[")) && parseJson(v).Some? then CJson(parseJson(v).value)
      else CText(v)
  }

  /** The definition `{"type": t}`. */
  function Typed(t: string): Json
  {
    JObj([("type", JStr(t))])
  }

  /** A missing or empty value is `null`, whatever the schema says. */
  lemma ConvertEmpty<F>(value: Option<string>, definition: Option<Json>,
                        parseFloat: string -> F, parseJson: string -> Option<Json>)
    requires value.None? || value.value == ""
    ensures ConvertValue(value, definition, parseFloat, parseJson) == CNull
  {
  }

  /** An integer field gives back the integer whose decimal rendering was submitted. */
  lemma ConvertIntegerRoundTrip<F>(k: int, parseFloat: string -> F, parseJson: string -> Option<Json>)
    ensures ConvertValue(Some(IntToString(k)), Some(Typed("integer")), parseFloat, parseJson) == CInt(Some(k))
  {
    TypedInteger();
    ConvertInteger(IntToString(k), Typed("integer"), parseFloat, parseJson);
    ParseDecimalRoundTrip(k);
  }

  lemma TypedInteger()
    ensures Prop(Typed("integer"), "type") == Some(JStr("integer"))
  {
    assert Typed("integer").members[0].0 == "type";
  }

  lemma ConvertInteger<F>(v: string, definition: Json, parseFloat: string -> F, parseJson: string -> Option<Json>)
    requires v != "" && Prop(definition, "type") == Some(JStr("integer"))
    ensures ConvertValue(Some(v), Some(definition), parseFloat, parseJson) == CInt(ParseDecimal(v))
  {
    assert JStr("integer") != JStr("number") by {
      assert |"integer"| != |"number"|;
    }
  }

  /** A boolean field is true exactly for a ticked checkbox ("on") or the text "true". */
  lemma ConvertBoolean<F>(v: string, parseFloat: string -> F, parseJson: string -> Option<Json>)
    requires v != ""
    ensures ConvertValue(Some(v), Some(Typed("boolean")), parseFloat, parseJson) == CBool(v == "on" || v == "true")
    ensures ConvertValue(Some(v), Some(Typed("boolean")), parseFloat, parseJson) == CBool(true) <==> v in {"on", "true"}
  {
  }

  /**
   * Any other field: text that looks like a JSON object or array is parsed, falling back
   * to the text itself when parsing fails; all other text is kept as it is.
   */
  lemma ConvertUntyped<F>(v: string, definition: Option<Json>, parseFloat: string -> F, parseJson: string -> Option<Json>)
    requires v != ""
    requires var t := if definition.Some? then Prop(definition.value, "type") else None;
      t !in {Some(JStr("number")), Some(JStr("integer")), Some(JStr("boolean"))}
    ensures var r := ConvertValue(Some(v), definition, parseFloat, parseJson);
      (v[0] != '{' && v[0] != '[' ==> r == CText(v)) &&
      ((v[0] == '{' || v[0] == '[') && parseJson(v).None? ==> r == CText(v)) &&
      ((v[0] == '{' || v[0] == '[') && parseJson(v).Some? ==> r == CJson(parseJson(v).value))
  {
    assert StartsWith(v, "{") <==> v[0] == '{';
    assert StartsWith(v, "[") <==> v[0] == '[';
  }
}
