/**
 * The browser's catalogue cache: an IndexedDB object store keyed by `id` holding one
 * version record and one record per catalogue entry. Modelled here: the decoding of
 * manifest tuples into records (with a slugger shared by the whole batch), the store
 * operations the seeding protocol issues, the version gate that decides between
 * reusing the cache and reseeding it, and what an interrupted seeding leaves behind.
 */
module ClientStore {
  import opened Wrappers
  import opened Text
  import opened CatalogueContent
  import opened Manifest
  import opened Json
  import HashCell
  import opened Slugs

  /**
   * github-slugger's `slug`: the base slug (a parameter) if unused in this batch,
   * otherwise the first unused `base-N`. Its per-base counter only ever skips suffixes
   * that are already used, so "first unused" is the same choice.
   */
  function Slug(title: string, used: set<string>, slugify: string -> string): (r: (string, set<string>))
    ensures r.0 !in used && r.1 == used + {r.0}
    ensures r.0 == Disambiguate(slugify(title), used)
  {
    var s := Disambiguate(slugify(title), used);
    (s, used + {s})
  }

  // ---------------------------------------------------------------- records

  /** `numberToType`; an unknown code throws. */
  function NumberToType(code: int): (r: Result<Kind, string>)
    ensures r.Success? <==> 0 <= code <= 3
    ensures r.Success? ==> TypeId(r.value) == code
  {
    if code == 0 then Success(Game)
    else if code == 1 then Success(Movie)
    else if code == 2 then Success(Show)
    else if code == 3 then Success(Book)
    else Failure("Unknown type: " + IntToString(code))
  }

  /** The browser decodes exactly the codes the build assigns. */
  lemma NumberToTypeOfTypeId(k: Kind)
    ensures NumberToType(TypeId(k)) == Success(k)
  {
  }

  function TypeName(k: Kind): string
  {
    match k
    case Game => "game"
    case Movie => "movie"
    case Show => "show"
    case Book => "book"
  }

  /** A catalogue record as stored. `placeholder` is the decoded thumbhash data URL. */
  datatype Item = Item(
    id: string, kind: Kind, title: string, lowerTitle: string, rating: int,
    date: int, placeholder: string, cover: string, author: string)

  /** The id of an entry with slug `slug`. */
  function IdOf(slug: string, k: Kind): string
  {
    slug + "-" + TypeName(k)
  }

  /**
   * One tuple to one record: id from the shared slugger plus the type name, lower-cased
   * title, date 0 when absent. The thumbhash decoder is a parameter.
   */
  function Decode(t: Tuple, used: set<string>, slugify: string -> string, thumb: string -> string)
    : (r: Result<(Item, string, set<string>), string>)
    ensures r.Success? <==> 0 <= t.typeCode <= 3
    ensures r.Success? ==>
      var (it, slug, used') := r.value;
      && TypeId(it.kind) == t.typeCode
      && it.id == IdOf(slug, it.kind) && slug !in used && used' == used + {slug}
      && it.title == t.title && it.lowerTitle == Lower(t.title)
      && it.date == (if t.date.Some? then t.date.value else 0)
      && it.rating == t.rating && it.author == t.author && it.cover == t.cover
  {
    var kind :- NumberToType(t.typeCode);
    var (slug, used') := Slug(t.title, used, slugify);
    var date := if t.date.Some? then t.date.value else 0;
    Success((Item(IdOf(slug, kind), kind, t.title, Lower(t.title), t.rating, date,
                  thumb(t.placeholder), t.cover, t.author), slug, used'))
  }

  /**
   * The `forEach` over the tuples. A bad type code throws out of the loop: the records
   * decoded before it are kept (their adds are already queued) and the error is reported.
   */
  function DecodeAll(ts: seq<Tuple>, used: set<string>, slugify: string -> string, thumb: string -> string)
    : (r: (seq<Item>, set<string>, Option<string>))
    ensures |r.0| <= |ts|
    ensures r.2.None? ==> |r.0| == |ts|
    ensures r.2.Some? ==> |r.0| < |ts| && !(0 <= ts[|r.0|].typeCode <= 3)
    ensures forall i :: 0 <= i < |r.0| ==> r.0[i].title == ts[i].title && TypeId(r.0[i].kind) == ts[i].typeCode
    decreases |ts|
  {
    if |ts| == 0 then ([], used, None)
    else
      match Decode(ts[0], used, slugify, thumb)
      case Failure(e) => ([], used, Some(e))
      case Success((it, _, used')) =>
        var (rest, used'', err) := DecodeAll(ts[1..], used', slugify, thumb);
        DecodedCons(ts, it, rest);
        ([it] + rest, used'', err)
  }

  /** Prepending the first tuple's record to the records of the rest keeps records and tuples aligned. */
  lemma DecodedCons(ts: seq<Tuple>, it: Item, rest: seq<Item>)
    requires |ts| > 0 && |rest| < |ts|
    requires it.title == ts[0].title && TypeId(it.kind) == ts[0].typeCode
    requires forall i :: 0 <= i < |rest| ==> rest[i].title == ts[1..][i].title && TypeId(rest[i].kind) == ts[1..][i].typeCode
    ensures forall i :: 0 <= i < |rest| + 1 ==> ([it] + rest)[i].title == ts[i].title && TypeId(([it] + rest)[i].kind) == ts[i].typeCode
    ensures |rest| < |ts| - 1 ==> ts[|rest| + 1] == ts[1..][|rest|]
  {
    forall i | 0 <= i < |rest| + 1
      ensures ([it] + rest)[i].title == ts[i].title && TypeId(([it] + rest)[i].kind) == ts[i].typeCode
    {
      if i > 0 {
        assert ([it] + rest)[i] == rest[i - 1];
        assert ts[i] == ts[1..][i - 1];
      }
    }
  }

  /** Ids of a batch are pairwise distinct. */
  ghost predicate UniqueIds(items: seq<Item>)
  {
    forall i, j :: 0 <= i < j < |items| ==> items[i].id != items[j].id
  }

  /** The type name is recoverable from the end of an id, so distinct slugs or kinds give distinct ids. */
  lemma IdInjective(s1: string, k1: Kind, s2: string, k2: Kind)
    ensures IdOf(s1, k1) == IdOf(s2, k2) ==> s1 == s2 && k1 == k2
  {
    var a, b := IdOf(s1, k1), IdOf(s2, k2);
    if a == b {
      if |TypeName(k1)| == |TypeName(k2)| {
        assert a[|s1|..] == "-" + TypeName(k1) && b[|s2|..] == "-" + TypeName(k2);
        assert TypeName(k1) == TypeName(k2) by {
          assert ("-" + TypeName(k1))[1..] == TypeName(k1);
          assert ("-" + TypeName(k2))[1..] == TypeName(k2);
        }
        assert a[..|s1|] == s1 && b[..|s2|] == s2;
      } else {
        IdFifthFromEnd(s1, k1);
        IdFifthFromEnd(s2, k2);
        assert false;
      }
    }
  }

  /** Five characters from the end of an id sits the dash, or the `m` of `movie`. */
  lemma IdFifthFromEnd(s: string, k: Kind)
    ensures |IdOf(s, k)| >= 5
    ensures IdOf(s, k)[|IdOf(s, k)| - 5] == if k == Movie then 'm' else '-'
  {
    var id := IdOf(s, k);
    assert id[|s|..] == "-" + TypeName(k);
  }

  /** No record id collides with the version record's key. */
  lemma IdNotVersion(s: string, k: Kind)
    ensures IdOf(s, k) != VersionKey
  {
    var id := IdOf(s, k);
    assert id[|id| - |TypeName(k)| - 1] == '-';
  }

  /** Every record of a batch has its own id: the shared slugger never hands out a slug twice. */
  lemma {:induction false} DecodeAllUnique(ts: seq<Tuple>, used: set<string>, slugify: string -> string, thumb: string -> string)
    ensures UniqueIds(DecodeAll(ts, used, slugify, thumb).0)
    ensures forall it :: it in DecodeAll(ts, used, slugify, thumb).0 ==> it.id != VersionKey
    ensures forall it :: it in DecodeAll(ts, used, slugify, thumb).0 ==>
      exists s :: s !in used && it.id == IdOf(s, it.kind)
    decreases |ts|
  {
    if |ts| > 0 && Decode(ts[0], used, slugify, thumb).Success? {
      var (it, slug, used') := Decode(ts[0], used, slugify, thumb).value;
      IdNotVersion(slug, it.kind);
      DecodeAllUnique(ts[1..], used', slugify, thumb);
      var rest := DecodeAll(ts[1..], used', slugify, thumb).0;
      assert DecodeAll(ts, used, slugify, thumb).0 == [it] + rest;
      forall j | 0 <= j < |rest|
        ensures rest[j].id != it.id
      {
        assert rest[j] in rest;
        var s :| s !in used' && rest[j].id == IdOf(s, rest[j].kind);
        IdInjective(s, rest[j].kind, slug, it.kind);
      }
      UniqueCons(it, rest);
      forall x | x in [it] + rest
        ensures x.id != VersionKey && exists s :: s !in used && x.id == IdOf(s, x.kind)
      {
        if x != it {
          assert x in rest;
          var s :| s !in used' && x.id == IdOf(s, x.kind);
          assert s !in used;
        }
      }
    }
  }

  lemma UniqueCons(it: Item, rest: seq<Item>)
    requires UniqueIds(rest)
    requires forall j :: 0 <= j < |rest| ==> rest[j].id != it.id
    ensures UniqueIds([it] + rest)
  {
    var r := [it] + rest;
    forall i, j | 0 <= i < j < |r|
      ensures r[i].id != r[j].id
    {
      assert r[j] == rest[j - 1];
      if i > 0 {
        assert r[i] == rest[i - 1];
      }
    }
  }

  // ---------------------------------------------------------------- the store

  const VersionKey := "version"

  datatype Stored =
    | VersionRecord(hash: string, timestamp: int, complete: bool)
    | ItemRecord(item: Item)

  type Store = map<string, Stored>

  /** The store operations the protocol issues. */
  datatype Write =
    | Clear
    | Add(key: string, value: Stored)
    | MarkComplete

  /**
   * One operation. `add` of an existing key fails (a constraint error). Marking complete
   * is the read-modify-write of the completion transaction: it fails when the version
   * record is missing.
   */
  function Apply(st: Store, w: Write): (r: Result<Store, string>)
    ensures w.Clear? ==> r == Success(map[])
    ensures w.Add? ==> (r.Success? <==> w.key !in st)
    ensures w.Add? && r.Success? ==> r.value == st[w.key := w.value]
    ensures w.MarkComplete? ==> (r.Success? <==> VersionKey in st && st[VersionKey].VersionRecord?)
    ensures w.MarkComplete? && r.Success? ==> r.value == st[VersionKey := st[VersionKey].(complete := true)]
  {
    match w
    case Clear => Success(map[])
    case Add(k, v) => if k in st then Failure("ConstraintError: " + k) else Success(st[k := v])
    case MarkComplete =>
      if VersionKey in st && st[VersionKey].VersionRecord? then
        Success(st[VersionKey := st[VersionKey].(complete := true)])
      else Failure("Version record not found when trying to mark complete")
  }

  /** Operations applied in order; the first failure stops the run. */
  function ApplyAll(st: Store, ws: seq<Write>): Result<Store, string>
    decreases |ws|
  {
    if |ws| == 0 then Success(st)
    else
      match Apply(st, ws[0])
      case Failure(e) => Failure(e)
      case Success(st') => ApplyAll(st', ws[1..])
  }

  /** A transaction is atomic: all its operations take effect, or none. */
  function RunTransaction(st: Store, ws: seq<Write>): (r: (Store, bool))
    ensures r.1 <==> ApplyAll(st, ws).Success?
    ensures r.0 == if r.1 then ApplyAll(st, ws).value else st
  {
    match ApplyAll(st, ws)
    case Success(st') => (st', true)
    case Failure(_) => (st, false)
  }

  /** What the version gate decides. */
  datatype Decision = Reuse | Reseed

  /**
   * The version gate: reuse the cache exactly when the version record could be read,
   * exists, carries the advertised hash and is marked complete.
   */
  function VersionCheck(read: Result<Option<Stored>, string>, latest: string): (d: Decision)
    ensures d == Reuse <==>
      read.Success? && read.value.Some? && read.value.value.VersionRecord?
      && read.value.value.hash == latest && read.value.value.complete
  {
    match read
    case Failure(_) => Reseed
    case Success(None) => Reseed
    case Success(Some(rec)) =>
      if rec.VersionRecord? && rec.hash == latest && rec.complete then Reuse else Reseed
  }

  /** Reading the version record of a store that answers. */
  function ReadVersion(st: Store): Result<Option<Stored>, string>
  {
    Success(if VersionKey in st then Some(st[VersionKey]) else None)
  }

  function Gate(st: Store, latest: string): Decision
  {
    VersionCheck(ReadVersion(st), latest)
  }

  function ItemAdds(items: seq<Item>): (ws: seq<Write>)
    ensures |ws| == |items|
    ensures forall i :: 0 <= i < |items| ==> ws[i] == Add(items[i].id, ItemRecord(items[i]))
  {
    seq(|items|, i requires 0 <= i < |items| => Add(items[i].id, ItemRecord(items[i])))
  }

  /** The seeding transaction: the incomplete version record first, then one add per record. */
  function SeedWrites(hash: string, now: int, items: seq<Item>): (ws: seq<Write>)
    ensures |ws| == |items| + 1 && ws[0] == Add(VersionKey, VersionRecord(hash, now, false))
  {
    [Add(VersionKey, VersionRecord(hash, now, false))] + ItemAdds(items)
  }

  /** Every operation of the protocol in issue order: clear, seed, then mark complete. */
  function ProtocolWrites(hash: string, now: int, items: seq<Item>): (ws: seq<Write>)
    ensures |ws| == |items| + 3 && ws[0] == Clear && ws[|ws| - 1] == MarkComplete
  {
    [Clear] + SeedWrites(hash, now, items) + [MarkComplete]
  }

  /** Adding records with fresh, distinct ids succeeds and leaves the version record alone. */
  lemma {:induction false} AddsSucceed(st: Store, items: seq<Item>, n: nat)
    requires n <= |items| && UniqueIds(items)
    requires forall i :: 0 <= i < |items| ==> items[i].id !in st
    ensures ApplyAll(st, ItemAdds(items)[..n]).Success?
    ensures var st' := ApplyAll(st, ItemAdds(items)[..n]).value;
      && (forall k :: k in st ==> k in st' && st'[k] == st[k])
      && (forall i :: 0 <= i < n ==> items[i].id in st' && st'[items[i].id] == ItemRecord(items[i]))
    decreases n
  {
    if n > 0 {
      var it := items[0];
      var st1 := st[it.id := ItemRecord(it)];
      AddsTailFresh(st, items);
      AddsSucceed(st1, items[1..], n - 1);
      AddsStep(st, items, n);
    }
  }

  lemma AddsTailFresh(st: Store, items: seq<Item>)
    requires |items| > 0 && UniqueIds(items)
    requires forall i :: 0 <= i < |items| ==> items[i].id !in st
    ensures UniqueIds(items[1..])
    ensures forall i :: 0 <= i < |items[1..]| ==> items[1..][i].id !in st[items[0].id := ItemRecord(items[0])]
  {
    forall i | 0 <= i < |items[1..]|
      ensures items[1..][i].id !in st[items[0].id := ItemRecord(items[0])]
    {
      assert items[1..][i] == items[i + 1];
    }
  }

  /** One add in front of the rest: the store after the first add, then the rest's outcome. */
  lemma AddsStep(st: Store, items: seq<Item>, n: nat)
    requires 0 < n <= |items| && items[0].id !in st
    requires forall i :: 1 <= i < |items| ==> items[i].id != items[0].id
    requires var st1 := st[items[0].id := ItemRecord(items[0])];
      && ApplyAll(st1, ItemAdds(items[1..])[..n - 1]).Success?
      && var st' := ApplyAll(st1, ItemAdds(items[1..])[..n - 1]).value;
      && (forall k :: k in st1 ==> k in st' && st'[k] == st1[k])
      && (forall i :: 0 <= i < n - 1 ==> items[1..][i].id in st' && st'[items[1..][i].id] == ItemRecord(items[1..][i]))
    ensures ApplyAll(st, ItemAdds(items)[..n]).Success?
    ensures var st' := ApplyAll(st, ItemAdds(items)[..n]).value;
      && (forall k :: k in st ==> k in st' && st'[k] == st[k])
      && (forall i :: 0 <= i < n ==> items[i].id in st' && st'[items[i].id] == ItemRecord(items[i]))
  {
    var ws := ItemAdds(items)[..n];
    var it := items[0];
    var st1 := st[it.id := ItemRecord(it)];
    assert ws[0] == Add(it.id, ItemRecord(it));
    assert ws[1..] == ItemAdds(items[1..])[..n - 1];
    assert ApplyAll(st, ws) == ApplyAll(st1, ws[1..]);
    var st' := ApplyAll(st1, ws[1..]).value;
    forall i | 1 <= i < n
      ensures items[i].id in st' && st'[items[i].id] == ItemRecord(items[i])
    {
      assert items[i] == items[1..][i - 1];
    }
  }

  /** Seeding an emptied store with a batch of unique records succeeds as one transaction. */
  lemma SeedSucceedsOnEmpty(hash: string, now: int, items: seq<Item>)
    requires UniqueIds(items) && forall it :: it in items ==> it.id != VersionKey
    ensures ApplyAll(map[], SeedWrites(hash, now, items)).Success?
    ensures VersionKey in ApplyAll(map[], SeedWrites(hash, now, items)).value
    ensures ApplyAll(map[], SeedWrites(hash, now, items)).value[VersionKey] == VersionRecord(hash, now, false)
    ensures forall i :: 0 <= i < |items| ==>
      items[i].id in ApplyAll(map[], SeedWrites(hash, now, items)).value
      && ApplyAll(map[], SeedWrites(hash, now, items)).value[items[i].id] == ItemRecord(items[i])
  {
    var v := VersionRecord(hash, now, false);
    var st1: Store := map[VersionKey := v];
    forall i | 0 <= i < |items|
      ensures items[i].id !in st1
    {
      assert items[i] in items;
    }
    AddsSucceed(st1, items, |items|);
    assert ItemAdds(items)[..|items|] == ItemAdds(items);
    assert SeedWrites(hash, now, items)[1..] == ItemAdds(items);
  }

  /** A finished protocol run whose hash is the advertised one makes the next visit reuse the cache. */
  lemma FullRunReuses(st: Store, latest: string, now: int, items: seq<Item>)
    requires UniqueIds(items) && forall it :: it in items ==> it.id != VersionKey
    ensures ApplyAll(st, ProtocolWrites(latest, now, items)).Success?
    ensures Gate(ApplyAll(st, ProtocolWrites(latest, now, items)).value, latest) == Reuse
  {
    var ws := ProtocolWrites(latest, now, items);
    var seed := SeedWrites(latest, now, items);
    assert ws[1..] == seed + [MarkComplete];
    assert ApplyAll(st, ws) == ApplyAll(map[], seed + [MarkComplete]);
    SeedSucceedsOnEmpty(latest, now, items);
    ApplyAllConcat(map[], seed, [MarkComplete]);
    var s1 := ApplyAll(map[], seed).value;
    assert ApplyAll(s1, [MarkComplete]) == Apply(s1, MarkComplete);
  }

  lemma {:induction false} ApplyAllConcat(st: Store, a: seq<Write>, b: seq<Write>)
    ensures ApplyAll(st, a + b) == (match ApplyAll(st, a) case Success(st') => ApplyAll(st', b) case Failure(e) => Failure(e))
    decreases |a|
  {
    if |a| == 0 {
      assert a + b == b;
    } else {
      assert (a + b)[0] == a[0] && (a + b)[1..] == a[1..] + b;
      if Apply(st, a[0]).Success? {
        ApplyAllConcat(Apply(st, a[0]).value, a[1..], b);
      }
    }
  }

  /**
   * Crash safety: if the protocol stops after any proper prefix of its operations (and
   * the cache was not reusable before it started), the next visit reseeds. The version
   * record is written incomplete before any catalogue record and only the last operation
   * completes it.
   */
  lemma CrashedRunReseeds(st: Store, latest: string, hash: string, now: int, items: seq<Item>, n: nat)
    requires UniqueIds(items) && forall it :: it in items ==> it.id != VersionKey
    requires Gate(st, latest) == Reseed
    requires n < |items| + 3
    ensures ApplyAll(st, ProtocolWrites(hash, now, items)[..n]).Success?
    ensures Gate(ApplyAll(st, ProtocolWrites(hash, now, items)[..n]).value, latest) == Reseed
  {
    var ws := ProtocolWrites(hash, now, items);
    if n == 0 {
      assert ws[..n] == [];
    } else if n == 1 {
      assert ws[..n] == [Clear];
    } else {
      var v := VersionRecord(hash, now, false);
      var st1: Store := map[VersionKey := v];
      forall i | 0 <= i < |items|
        ensures items[i].id !in st1
      {
        assert items[i] in items;
      }
      AddsSucceed(st1, items, n - 2);
      assert ws[..n] == [Clear, Add(VersionKey, v)] + ItemAdds(items)[..n - 2];
      ApplyAllConcat(st, [Clear, Add(VersionKey, v)], ItemAdds(items)[..n - 2]);
      forall i | 0 <= i < n - 2
        ensures items[i].id != VersionKey
      {
        assert items[i] in items;
      }
    }
  }

  // ---------------------------------------------------------------- seeding

  /** How a seeding run ends for the visitor. */
  datatype Outcome =
    | ShowCatalogue  // the completion update succeeded and the UI is built
    | ShowError      // the error message replaces the skeletons
    | Stalled        // nothing follows (a decoding error escaped, or the clear failed): the skeletons stay

  /**
   * `seedDatabase` on a store: `fetched` is the parsed manifest, or `None` when fetching
   * or parsing failed. The seeding transaction runs atomically; a bad type code stops
   * the loop after queuing the earlier adds, before the completion handler is attached.
   */
  function Seed(st: Store, fetched: Option<(string, seq<Tuple>)>, now: int,
                slugify: string -> string, thumb: string -> string): (r: (Store, Outcome))
    ensures fetched.None? ==> r == (st, ShowError)
    ensures r.1 == ShowCatalogue ==> VersionKey in r.0 && r.0[VersionKey].VersionRecord? && r.0[VersionKey].complete
  {
    match fetched
    case None => (st, ShowError)
    case Some((hash, ts)) =>
      var (items, _, err) := DecodeAll(ts, {}, slugify, thumb);
      var (st1, ok) := RunTransaction(st, SeedWrites(hash, now, items));
      if !ok then (st1, ShowError)
      else if err.Some? then (st1, Stalled)
      else
        var (st2, ok2) := RunTransaction(st1, [MarkComplete]);
        if ok2 then (st2, ShowCatalogue) else (st2, ShowError)
  }

  /**
   * `clearAndSeedDatabase`: the clear request, then a seeding run. `clearOk` is the clear
   * request's outcome; a failed clear is only logged, so the store keeps its contents and
   * nothing is shown.
   */
  function ClearAndSeed(st: Store, clearOk: bool, fetched: Option<(string, seq<Tuple>)>, now: int,
                        slugify: string -> string, thumb: string -> string): (r: (Store, Outcome))
    ensures !clearOk ==> r == (st, Stalled)
    ensures clearOk && fetched.None? ==> r == (map[], ShowError)
    ensures r.1 == ShowCatalogue ==> clearOk && VersionKey in r.0 && r.0[VersionKey].VersionRecord? && r.0[VersionKey].complete
  {
    if clearOk then Seed(map[], fetched, now, slugify, thumb) else (st, Stalled)
  }

  /**
   * Seeding an empty store with a well-formed manifest shows the catalogue, stores one
   * record per tuple under its own id, and makes the version record reusable for exactly
   * the manifest's hash.
   */
  lemma SeedFillsStore(hash: string, ts: seq<Tuple>, now: int, slugify: string -> string, thumb: string -> string)
    requires forall i :: 0 <= i < |ts| ==> 0 <= ts[i].typeCode <= 3
    ensures var (st, out) := Seed(map[], Some((hash, ts)), now, slugify, thumb);
      var items := DecodeAll(ts, {}, slugify, thumb).0;
      && out == ShowCatalogue
      && |items| == |ts|
      && (forall i :: 0 <= i < |items| ==> items[i].id in st && st[items[i].id] == ItemRecord(items[i]))
      && (forall latest :: Gate(st, latest) == Reuse <==> latest == hash)
  {
    var items := DecodeAll(ts, {}, slugify, thumb).0;
    DecodeAllValid(ts, {}, slugify, thumb);
    DecodeAllUnique(ts, {}, slugify, thumb);
    SeedSucceedsOnEmpty(hash, now, items);
  }

  /** Decoding reports an error exactly when some tuple carries an unknown type code. */
  lemma {:induction false} DecodeAllValid(ts: seq<Tuple>, used: set<string>, slugify: string -> string, thumb: string -> string)
    ensures DecodeAll(ts, used, slugify, thumb).2.None? <==> forall i :: 0 <= i < |ts| ==> 0 <= ts[i].typeCode <= 3
    decreases |ts|
  {
    if |ts| > 0 && Decode(ts[0], used, slugify, thumb).Success? {
      var used' := Decode(ts[0], used, slugify, thumb).value.2;
      DecodeAllValid(ts[1..], used', slugify, thumb);
      assert forall i :: 1 <= i < |ts| ==> ts[i] == ts[1..][i - 1];
    }
  }

  /**
   * A manifest with an unknown type code leaves the catalogue unusable but safe: the
   * skeletons stay, and the next visit reseeds because the version record is incomplete.
   */
  lemma BadTypeCodeStalls(hash: string, ts: seq<Tuple>, now: int, slugify: string -> string, thumb: string -> string, i: nat)
    requires i < |ts| && !(0 <= ts[i].typeCode <= 3)
    ensures var (st, out) := Seed(map[], Some((hash, ts)), now, slugify, thumb);
      out == Stalled && forall latest :: Gate(st, latest) == Reseed
  {
    var items := DecodeAll(ts, {}, slugify, thumb).0;
    DecodeAllValid(ts, {}, slugify, thumb);
    DecodeAllUnique(ts, {}, slugify, thumb);
    SeedSucceedsOnEmpty(hash, now, items);
  }

  /**
   * End to end: from the build's output, a first visit reads the manifest, seeds an
   * empty store, shows the catalogue, and leaves a cache the next visit reuses against
   * the hash the page advertises.
   */
  lemma FirstVisitCaches(src: Sources, hasher: seq<seq<Json>> -> nat, now: int,
                         slugify: string -> string, thumb: string -> string)
    requires Content(src, hasher, HashCell.Empty).Success?
    ensures var (j, cell) := Content(src, hasher, HashCell.Empty).value;
      && CataloguePage(cell).Success?
      && ReadManifest(j).Some?
      && var (st, out) := Seed(map[], ReadManifest(j), now, slugify, thumb);
         out == ShowCatalogue && Gate(st, CataloguePage(cell).value.latest) == Reuse
  {
    var (j, cell) := Content(src, hasher, HashCell.Empty).value;
    PageAdvertisesManifestHash(src, hasher);
    ReadManifestOfContent(src, hasher, HashCell.Empty);
    var (h, ts) := ReadManifest(j).value;
    forall i | 0 <= i < |ts|
      ensures 0 <= ts[i].typeCode <= 3
    {
      var (k, n) := Locate(src, i);
      assert ts[i].typeCode == TypeId(k);
    }
    SeedFillsStore(h, ts, now, slugify, thumb);
  }

  // ---------------------------------------------------------------- opening the database

  /** The events of opening the database at the current schema version. */
  datatype OpenEvent =
    | UpgradeNeeded          // first visit or a schema bump: the store is recreated
    | OpenSucceeded
    | OpenFailed(deleteOk: bool)

  /** What a handler starts. */
  datatype Action = SeedFresh | CheckVersion | ShowErrorUI | NoAction

  /**
   * One handler with the `wasUpgraded` flag. After an upgrade the store is empty and a
   * seeding run is already under way, so the following success skips the version check.
   * After a failed open the database is deleted and reopened; the reopened database is
   * new, so it upgrades and seeds. A failed delete shows the error.
   */
  function OnOpenEvent(wasUpgraded: bool, ev: OpenEvent): (r: (bool, Action))
    ensures r.1 == CheckVersion <==> ev == OpenSucceeded && !wasUpgraded
    ensures r.1 == SeedFresh <==> ev == UpgradeNeeded || ev == OpenFailed(true)
    ensures ev == OpenSucceeded ==> !r.0
  {
    match ev
    case UpgradeNeeded => (true, SeedFresh)
    case OpenSucceeded => (false, if wasUpgraded then NoAction else CheckVersion)
    case OpenFailed(deleteOk) => (wasUpgraded, if deleteOk then SeedFresh else ShowErrorUI)
  }

  function OnOpenEvents(wasUpgraded: bool, evs: seq<OpenEvent>): (acts: seq<Action>)
    ensures |acts| == |evs|
    decreases |evs|
  {
    if |evs| == 0 then []
    else
      var (flag, act) := OnOpenEvent(wasUpgraded, evs[0]);
      [act] + OnOpenEvents(flag, evs[1..])
  }

  /** The event sequences one open request can deliver. */
  predicate OpenSequence(evs: seq<OpenEvent>)
  {
    || evs == [OpenSucceeded]
    || evs == [UpgradeNeeded, OpenSucceeded]
    || (|evs| == 1 && evs[0].OpenFailed?)
    || (|evs| == 2 && evs[0] == UpgradeNeeded && evs[1].OpenFailed?)
  }

  function Started(acts: seq<Action>): nat
  {
    if |acts| == 0 then 0 else (if acts[0] == NoAction then 0 else 1) + Started(acts[1..])
  }

  /**
   * Every page load starts exactly one of: a seeding run, a version check, or the error
   * message (an upgrade whose open then fails starts a second seeding on the recreated
   * database).
   */
  lemma OpenStartsOnce(evs: seq<OpenEvent>)
    requires OpenSequence(evs) && !(|evs| == 2 && evs[1] == OpenFailed(true))
    ensures Started(OnOpenEvents(false, evs)) == 1
    ensures CheckVersion in OnOpenEvents(false, evs) <==> evs == [OpenSucceeded]
  {
  }

  /**
   * What a version check leads to: reuse builds the UI directly, anything else clears and
   * seeds; when that clear fails the page stalls and the stale cache stays unusable.
   */
  function AfterVersionCheck(st: Store, latest: string, clearOk: bool, fetched: Option<(string, seq<Tuple>)>, now: int,
                             slugify: string -> string, thumb: string -> string): (r: (Store, Outcome))
    ensures Gate(st, latest) == Reuse ==> r == (st, ShowCatalogue)
    ensures Gate(st, latest) == Reseed ==> r == ClearAndSeed(st, clearOk, fetched, now, slugify, thumb)
    ensures Gate(st, latest) == Reseed && !clearOk ==> r.1 == Stalled && Gate(r.0, latest) == Reseed
  {
    if Gate(st, latest) == Reuse then (st, ShowCatalogue) else ClearAndSeed(st, clearOk, fetched, now, slugify, thumb)
  }

  /**
   * A cache seeded for one hash is thrown away once the page advertises another one, and
   * the reseeded cache answers to the new hash; if the clear fails, the page stalls with
   * the old cache in place, which the next visit again refuses to reuse.
   */
  lemma NewHashReseeds(st: Store, latest: string, clearOk: bool, fetched: (string, seq<Tuple>), now: int,
                       slugify: string -> string, thumb: string -> string)
    requires VersionKey in st && st[VersionKey].VersionRecord? && st[VersionKey].hash != latest
    requires fetched.0 == latest && forall i :: 0 <= i < |fetched.1| ==> 0 <= fetched.1[i].typeCode <= 3
    ensures var (st', out) := AfterVersionCheck(st, latest, clearOk, Some(fetched), now, slugify, thumb);
      && (clearOk ==> out == ShowCatalogue && Gate(st', latest) == Reuse)
      && (!clearOk ==> out == Stalled && st' == st && Gate(st', latest) == Reseed)
  {
    SeedFillsStore(fetched.0, fetched.1, now, slugify, thumb);
  }
}
