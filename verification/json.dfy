/**
 * The JSON values exchanged between the static site build and the browser: the
 * catalogue manifest is an array of arrays of strings and integers, the older
 * content feed an object. Object members keep their insertion order, as
 * `serde_json` and `JSON.stringify` print them.
 */
module Json {
  import opened Wrappers
  import opened Text

  datatype Json =
    | JNull
    | JBool(b: bool)
    | JNum(n: int)
    | JStr(s: string)
    | JArr(items: seq<Json>)
    | JObj(members: seq<(string, Json)>)

  /** The value of the first member named `key`, as property access on a parsed object reads it. */
  function Member(members: seq<(string, Json)>, key: string): (r: Option<Json>)
    ensures r.Some? <==> exists i :: 0 <= i < |members| && members[i].0 == key
    ensures r.Some? ==> exists i :: 0 <= i < |members| && members[i] == (key, r.value)
  {
    if |members| == 0 then None
    else if members[0].0 == key then Some(members[0].1)
    else
      var r := Member(members[1..], key);
      assert forall i :: 1 <= i < |members| ==> members[i] == members[1..][i - 1];
      r
  }

  /** The keys of an object, in order. */
  function Keys(members: seq<(string, Json)>): (ks: seq<string>)
    ensures |ks| == |members|
    ensures forall i :: 0 <= i < |ks| ==> ks[i] == members[i].0
  {
    seq(|members|, i requires 0 <= i < |members| => members[i].0)
  }

  /** JavaScript truthiness: `null`, `false`, `0` and `""` are falsy, arrays and objects never are. */
  predicate Truthy(j: Json)
  {
    match j
    case JNull => false
    case JBool(b) => b
    case JNum(n) => n != 0
    case JStr(s) => s != ""
    case _ => true
  }

  /** Whether an optional property read is present and truthy, as `if (obj.key)` tests it. */
  predicate TruthyOpt(o: Option<Json>)
  {
    o.Some? && Truthy(o.value)
  }

  /** `obj.key` on a value other than `null`: an object's member, and nothing on anything else. */
  function Prop(j: Json, key: string): (r: Option<Json>)
    ensures r.Some? ==> j.JObj?
  {
    if j.JObj? then Member(j.members, key) else None
  }

  /** No key appears twice, as in any JavaScript object. */
  predicate UniqueKeys(members: seq<(string, Json)>)
  {
    forall i, j :: 0 <= i < j < |members| ==> members[i].0 != members[j].0
  }

  /** With unique keys, each member is read back under its own key. */
  lemma MemberAt(members: seq<(string, Json)>, i: int)
    requires UniqueKeys(members) && 0 <= i < |members|
    ensures Member(members, members[i].0) == Some(members[i].1)
  {
    var r := Member(members, members[i].0);
    var j :| 0 <= j < |members| && members[j] == (members[i].0, r.value);
    assert i == j;
  }

  /**
   * `obj[key] = v` on an object literal: an existing key keeps its position and takes the
   * new value, a new key goes last.
   */
  function Put(members: seq<(string, Json)>, key: string, v: Json): (r: seq<(string, Json)>)
    ensures |r| >= |members|
    decreases |members|
  {
    if |members| == 0 then [(key, v)]
    else if members[0].0 == key then [(key, v)] + members[1..]
    else [members[0]] + Put(members[1..], key, v)
  }

  /** After `obj[key] = v`, the key reads `v` and every other key reads as before. */
  lemma {:induction false} PutMember(members: seq<(string, Json)>, key: string, v: Json, k: string)
    ensures Member(Put(members, key, v), k) == if k == key then Some(v) else Member(members, k)
    decreases |members|
  {
    if |members| > 0 && members[0].0 != key {
      PutMember(members[1..], key, v, k);
      assert ([members[0]] + Put(members[1..], key, v))[1..] == Put(members[1..], key, v);
    }
  }

  /** Writing an existing key keeps every key in its place; a new key is appended. */
  lemma PutKeys(members: seq<(string, Json)>, key: string, v: Json)
    ensures var r := Put(members, key, v);
      Member(members, key).Some? ==> |r| == |members| && forall i :: 0 <= i < |r| ==> r[i].0 == members[i].0
    ensures Member(members, key).None? ==> Put(members, key, v) == members + [(key, v)]
  {
    if Member(members, key).Some? {
      PutExisting(members, key, v);
    } else {
      PutNew(members, key, v);
    }
  }

  lemma {:induction false} PutExisting(members: seq<(string, Json)>, key: string, v: Json)
    requires Member(members, key).Some?
    ensures var r := Put(members, key, v);
      |r| == |members| && forall i :: 0 <= i < |r| ==> r[i].0 == members[i].0
    decreases |members|
  {
    var r := Put(members, key, v);
    if members[0].0 == key {
      assert r == [(key, v)] + members[1..];
      forall i | 1 <= i < |r|
        ensures r[i] == members[i]
      {
        assert r[i] == members[1..][i - 1];
      }
    } else {
      var t := Put(members[1..], key, v);
      assert Member(members[1..], key) == Member(members, key);
      PutExisting(members[1..], key, v);
      assert r == [members[0]] + t;
      forall i | 1 <= i < |r|
        ensures r[i].0 == members[i].0
      {
        assert r[i] == t[i - 1];
        assert members[i] == members[1..][i - 1];
      }
    }
  }

  lemma {:induction false} PutNew(members: seq<(string, Json)>, key: string, v: Json)
    requires Member(members, key).None?
    ensures Put(members, key, v) == members + [(key, v)]
    decreases |members|
  {
    if |members| > 0 {
      PutNew(members[1..], key, v);
      assert members == [members[0]] + members[1..];
    }
  }

  /** `{...base, ...over}`: the members of `over` written one after the other over `base`. */
  function Spread(base: seq<(string, Json)>, over: seq<(string, Json)>): seq<(string, Json)>
    decreases |over|
  {
    if |over| == 0 then base else Spread(Put(base, over[0].0, over[0].1), over[1..])
  }

  /** `const { a, b, ...rest } = obj`: the members whose key is not one of `drop`. */
  function Without(members: seq<(string, Json)>, drop: set<string>): (r: seq<(string, Json)>)
    ensures |r| <= |members|
    decreases |members|
  {
    if |members| == 0 then []
    else if members[0].0 in drop then Without(members[1..], drop)
    else [members[0]] + Without(members[1..], drop)
  }

  /** Reading through an object spread: a key of `over` wins, any other key reads from `base`. */
  lemma {:induction false} SpreadMember(base: seq<(string, Json)>, over: seq<(string, Json)>, k: string)
    requires UniqueKeys(over)
    ensures Member(Spread(base, over), k) ==
              if Member(over, k).Some? then Member(over, k) else Member(base, k)
    decreases |over|
  {
    if |over| > 0 {
      var rest := over[1..];
      assert UniqueKeys(rest) by {
        assert forall i :: 0 <= i < |rest| ==> rest[i] == over[i + 1];
      }
      SpreadMember(Put(base, over[0].0, over[0].1), rest, k);
      PutMember(base, over[0].0, over[0].1, k);
      if k == over[0].0 {
        assert Member(rest, k).None? by {
          assert forall i :: 0 <= i < |rest| ==> rest[i] == over[i + 1];
        }
      } else {
        assert Member(over, k) == Member(rest, k);
      }
    }
  }

  /** Rest destructuring drops exactly the named keys. */
  lemma {:induction false} WithoutMember(members: seq<(string, Json)>, drop: set<string>, k: string)
    ensures Member(Without(members, drop), k) == if k in drop then None else Member(members, k)
    decreases |members|
  {
    if |members| > 0 {
      WithoutMember(members[1..], drop, k);
      if members[0].0 !in drop {
        assert ([members[0]] + Without(members[1..], drop))[1..] == Without(members[1..], drop);
      }
    }
  }

  // ---------------------------------------------------------------- property access

  /** A canonical array index (`"0"`, `"12"`, never `"012"`) below the length. */
  function ArrayIndex(seg: string, len: nat): (r: Option<nat>)
    ensures r.Some? ==> r.value < len && NatToString(r.value) == seg
  {
    if |seg| > 0 && AllDigits(seg, 10) && ValueOf(seg, 10) < len && NatToString(ValueOf(seg, 10)) == seg
    then Some(ValueOf(seg, 10))
    else None
  }

  /**
   * Reading property `seg` of an object-typed value: objects are read by key, arrays by
   * index or `length`. `null` and the primitive values have no such property here.
   */
  function Step(j: Json, seg: string): Option<Json>
  {
    if j.JObj? then Member(j.members, seg)
    else if j.JArr? then
      if seg == "length" then Some(JNum(|j.items|))
      else
        var i := ArrayIndex(seg, |j.items|);
        if i.Some? then Some(j.items[i.value]) else None
    else None
  }
}
