/**
 * The browser's catalogue query (`buildUI`): read the filter controls, walk one index of
 * the store in the chosen direction, keep the records matching the type and rating
 * filters, and hand a non-empty search to the fuzzy matcher.
 *
 * An index cursor visits the records that have the index's key paths, ordered by the
 * index key and then by primary key; "prev" walks the same order backwards. The version
 * record has none of the indexed fields, so no cursor ever yields it.
 */
module ClientQuery {
  import opened Wrappers
  import opened Text
  import opened Seqs
  import opened Ordering
  import opened CatalogueContent
  import opened ClientStore

  datatype Index = DateIndex | RatingDateIndex | TitleIndex

  /** The sort control's value to an index; anything unknown sorts by date. */
  function IndexFor(sort: string): (idx: Index)
    ensures idx == TitleIndex <==> sort == "alphabetical"
    ensures idx == RatingDateIndex <==> sort == "rating"
  {
    if sort == "date" then DateIndex
    else if sort == "rating" then RatingDateIndex
    else if sort == "alphabetical" then TitleIndex
    else DateIndex
  }

  /** The checkbox walks ascending ("next") when checked, descending ("prev") otherwise. */
  datatype Direction = Next | Prev

  function DirectionOf(ascending: bool): Direction
  {
    if ascending then Next else Prev
  }

  /** The key an index stores for a record: `date`, `[rating, date]` or `lower_case_title`. */
  function IndexKey(idx: Index, it: Item): seq<int>
  {
    match idx
    case DateIndex => [it.date]
    case RatingDateIndex => [it.rating, it.date]
    case TitleIndex => StrKey(it.lowerTitle)
  }

  /** Cursor order: the index key, then the primary key. */
  function CursorKey(idx: Index): Item -> seq<int>
  {
    it => IndexKey(idx, it) + StrKey(it.id)
  }

  /** The records an index holds: every catalogue record, in listing order. */
  function Indexed(records: seq<Stored>): (r: seq<Item>)
    ensures |r| <= |records|
    decreases |records|
  {
    if |records| == 0 then []
    else if records[0].ItemRecord? then [records[0].item] + Indexed(records[1..])
    else Indexed(records[1..])
  }

  lemma {:induction false} IndexedMembers(records: seq<Stored>, it: Item)
    ensures it in Indexed(records) <==> ItemRecord(it) in records
    decreases |records|
  {
    if |records| > 0 {
      IndexedMembers(records[1..], it);
      assert records == [records[0]] + records[1..];
    }
  }

  /** The records in the order a cursor over `idx` visits them. */
  function Cursor(records: seq<Stored>, idx: Index, dir: Direction): (r: seq<Item>)
    ensures |r| == |Indexed(records)|
    ensures multiset(r) == multiset(Indexed(records))
  {
    var up := SortBy(Indexed(records), CursorKey(idx));
    if dir == Next then up
    else
      assert multiset(Reverse(up)) == multiset(up) by {
        ReverseMultiset(up);
      }
      Reverse(up)
  }

  lemma {:induction false} ReverseMultiset<T(!new)>(s: seq<T>)
    ensures multiset(Reverse(s)) == multiset(s)
    decreases |s|
  {
    if |s| > 0 {
      ReverseCons(s);
      ReverseMultiset(s[1..]);
      assert s == [s[0]] + s[1..];
    }
  }

  /** A cursor yields every catalogue record and nothing else; in particular never the version record. */
  lemma CursorContents(records: seq<Stored>, idx: Index, dir: Direction, it: Item)
    ensures it in Cursor(records, idx, dir) <==> ItemRecord(it) in records
  {
    IndexedMembers(records, it);
    var c := Cursor(records, idx, dir);
    assert it in c <==> it in multiset(c);
  }

  /** `lo` may precede `hi` in an ascending walk: by index key, then by id. */
  predicate InOrder(idx: Index, lo: Item, hi: Item)
  {
    LexLe(IndexKey(idx, lo), IndexKey(idx, hi)) && (IndexKey(idx, lo) == IndexKey(idx, hi) ==> StrLe(lo.id, hi.id))
  }

  /**
   * Order of the walk: ascending ("next") or descending ("prev") by index key, and records
   * with equal index keys by id in the same direction.
   */
  lemma CursorOrder(records: seq<Stored>, idx: Index, dir: Direction, i: int, j: int)
    requires 0 <= i < j < |Cursor(records, idx, dir)|
    ensures dir == Next ==> InOrder(idx, Cursor(records, idx, dir)[i], Cursor(records, idx, dir)[j])
    ensures dir == Prev ==> InOrder(idx, Cursor(records, idx, dir)[j], Cursor(records, idx, dir)[i])
  {
    var up := SortBy(Indexed(records), CursorKey(idx));
    var c := Cursor(records, idx, dir);
    var n := |up|;
    if dir == Next {
      assert c == up;
      SortedAt(up, CursorKey(idx), i, j);
      ThenByIdDecides(idx, up[i], up[j]);
    } else {
      assert c == Reverse(up);
      ReverseSortedAt(up, CursorKey(idx), i, j);
      ThenByIdDecides(idx, c[j], c[i]);
    }
  }

  lemma SortedAt(s: seq<Item>, key: Item -> seq<int>, a: int, b: int)
    requires SortedBy(s, key) && 0 <= a < b < |s|
    ensures LexLe(key(s[a]), key(s[b]))
  {
  }

  lemma ReverseSortedAt(s: seq<Item>, key: Item -> seq<int>, a: int, b: int)
    requires SortedBy(s, key) && 0 <= a < b < |s|
    ensures LexLe(key(Reverse(s)[b]), key(Reverse(s)[a]))
  {
    assert Reverse(s)[b] == s[|s| - 1 - b] && Reverse(s)[a] == s[|s| - 1 - a];
  }

  /** Comparing cursor keys: a differing index key decides alone, otherwise the id does. */
  lemma ThenByIdDecides(idx: Index, x: Item, y: Item)
    ensures LexLe(CursorKey(idx)(x), CursorKey(idx)(y)) ==> InOrder(idx, x, y)
    ensures CursorKey(idx)(x) == CursorKey(idx)(y) ==> x.id == y.id
  {
    var kx, ky := IndexKey(idx, x), IndexKey(idx, y);
    LexLeReflexive(kx);
    LexLeReflexive(CursorKey(idx)(x));
    if kx == ky {
      LexLeSharedPrefix(kx, StrKey(x.id), StrKey(y.id));
      if CursorKey(idx)(x) == CursorKey(idx)(y) {
        assert StrKey(x.id) == CursorKey(idx)(x)[|kx|..] == CursorKey(idx)(y)[|ky|..] == StrKey(y.id);
        StrKeyInjective(x.id, y.id);
      }
    } else if idx == TitleIndex {
      var tx, ty := x.lowerTitle, y.lowerTitle;
      assert tx != ty;
      StrKeyThenRest(tx, ty, StrKey(x.id), StrKey(y.id));
      StrKeyThenRest(ty, tx, StrKey(y.id), StrKey(x.id));
      if LexLe(StrKey(tx), StrKey(ty)) && LexLe(StrKey(ty), StrKey(tx)) {
        LexLeAntisymmetric(StrKey(tx), StrKey(ty));
        StrKeyInjective(tx, ty);
      }
    } else {
      LexLeEqualWidth(kx, ky, StrKey(x.id), StrKey(y.id));
      LexLeEqualWidth(ky, kx, StrKey(y.id), StrKey(x.id));
      if LexLe(kx, ky) && LexLe(ky, kx) {
        LexLeAntisymmetric(kx, ky);
      }
    }
  }

  /**
   * The walk does not depend on how the store happens to list its records: any two
   * listings of the same records, whose ids are distinct as a keyed store guarantees,
   * give the same cursor.
   */
  lemma CursorIndependent(r1: seq<Stored>, r2: seq<Stored>, idx: Index, dir: Direction)
    requires multiset(Indexed(r1)) == multiset(Indexed(r2))
    requires forall x, y :: x in Indexed(r1) && y in Indexed(r1) && x.id == y.id ==> x == y
    ensures Cursor(r1, idx, dir) == Cursor(r2, idx, dir)
  {
    var key := CursorKey(idx);
    var i1, i2 := Indexed(r1), Indexed(r2);
    var a, b := SortBy(i1, key), SortBy(i2, key);
    assert multiset(a) == multiset(b);
    SortedKeysUnique(i1, a, idx);
    SortedUnique(a, b, key);
  }

  lemma SortedKeysUnique(items: seq<Item>, a: seq<Item>, idx: Index)
    requires multiset(a) == multiset(items)
    requires forall x, y :: x in items && y in items && x.id == y.id ==> x == y
    ensures forall x, y :: x in a && y in a && CursorKey(idx)(x) == CursorKey(idx)(y) ==> x == y
  {
    forall x, y | x in a && y in a && CursorKey(idx)(x) == CursorKey(idx)(y)
      ensures x == y
    {
      SortedKeyDecides(items, a, idx, x, y);
    }
  }

  lemma SortedKeyDecides(items: seq<Item>, a: seq<Item>, idx: Index, x: Item, y: Item)
    requires multiset(a) == multiset(items)
    requires forall x, y :: x in items && y in items && x.id == y.id ==> x == y
    requires x in a && y in a && CursorKey(idx)(x) == CursorKey(idx)(y)
    ensures x == y
  {
    assert x in multiset(a) && y in multiset(a);
    assert x in items && y in items;
    ThenByIdDecides(idx, x, y);
  }

  // ---------------------------------------------------------------- filters

  /** `rating` in the filter object: empty, a number, or a value `Number` turns into NaN or a fraction. */
  datatype RatingFilter = AnyRating | RatingIs(n: int) | NoRating

  /** The rating control's value; `number` is JavaScript's `Number` restricted to integral results. */
  function RatingFilterOf(value: string, number: string -> Option<int>): (f: RatingFilter)
    ensures f == AnyRating <==> value == ""
  {
    if value == "" then AnyRating
    else match number(value)
      case Some(n) => RatingIs(n)
      case None => NoRating
  }

  datatype Filters = Filters(search: string, typeName: string, rating: RatingFilter, sort: string)

  /** The filter object read from the controls: the search box is lower-cased. */
  function FiltersOf(searchValue: string, typeValue: string, ratingValue: string, sortValue: string,
                     number: string -> Option<int>): (f: Filters)
    ensures f.search == Lower(searchValue) && f.typeName == typeValue && f.sort == sortValue
    ensures f.rating == RatingFilterOf(ratingValue, number)
  {
    Filters(Lower(searchValue), typeValue, RatingFilterOf(ratingValue, number), sortValue)
  }

  predicate MatchesType(f: Filters, it: Item)
  {
    f.typeName == "" || TypeName(it.kind) == f.typeName
  }

  predicate MatchesRating(f: Filters, it: Item)
  {
    match f.rating
    case AnyRating => true
    case RatingIs(n) => it.rating == n
    case NoRating => false
  }

  predicate Matches(f: Filters, it: Item)
  {
    MatchesType(f, it) && MatchesRating(f, it)
  }

  /** The fuzzy matcher over title and author (a parameter): it returns a selection of its input. */
  type Matcher = (seq<Item>, string) -> seq<Item>

  /**
   * `buildUI`'s result list: the records the cursor visits that pass the filters, in
   * cursor order; a non-empty search replaces it with the matcher's ranking of that list.
   */
  function Query(records: seq<Stored>, f: Filters, ascending: bool, matcher: Matcher): (r: seq<Item>)
    ensures f.search == "" ==> forall it :: it in r <==> ItemRecord(it) in records && Matches(f, it)
    ensures f.search != "" ==> r == matcher(Filter(Cursor(records, IndexFor(f.sort), DirectionOf(ascending)), it => Matches(f, it)), f.search)
  {
    var walked := Filter(Cursor(records, IndexFor(f.sort), DirectionOf(ascending)), it => Matches(f, it));
    if f.search == "" then
      assert forall it :: it in Cursor(records, IndexFor(f.sort), DirectionOf(ascending)) <==> ItemRecord(it) in records by {
        forall it
          ensures it in Cursor(records, IndexFor(f.sort), DirectionOf(ascending)) <==> ItemRecord(it) in records
        {
          CursorContents(records, IndexFor(f.sort), DirectionOf(ascending), it);
        }
      }
      walked
    else matcher(walked, f.search)
  }

  /** Without a search the result is sorted by the chosen index, ascending or descending. */
  lemma QueryOrder(records: seq<Stored>, f: Filters, ascending: bool, matcher: Matcher, i: int, j: int)
    requires f.search == "" && 0 <= i < j < |Query(records, f, ascending, matcher)|
    ensures var r := Query(records, f, ascending, matcher);
      var idx := IndexFor(f.sort);
      if ascending then LexLe(IndexKey(idx, r[i]), IndexKey(idx, r[j]))
      else LexLe(IndexKey(idx, r[j]), IndexKey(idx, r[i]))
  {
    var idx := IndexFor(f.sort);
    var up := SortBy(Indexed(records), CursorKey(idx));
    var p := (it: Item) => Matches(f, it);
    var r := Query(records, f, ascending, matcher);
    if ascending {
      FilterSorted(up, p, CursorKey(idx));
      assert LexLe(CursorKey(idx)(r[i]), CursorKey(idx)(r[j]));
      ThenByIdDecides(idx, r[i], r[j]);
    } else {
      FilterReverse(up, p);
      FilterSorted(up, p, CursorKey(idx));
      var d := Filter(up, p);
      assert r == Reverse(d);
      assert LexLe(CursorKey(idx)(d[|d| - 1 - j]), CursorKey(idx)(d[|d| - 1 - i]));
      ThenByIdDecides(idx, r[j], r[i]);
    }
  }

  /** Unchecking the order box reverses the result exactly (when there is no search). */
  lemma QueryDescendingReverses(records: seq<Stored>, f: Filters, matcher: Matcher)
    requires f.search == ""
    ensures Query(records, f, false, matcher) == Reverse(Query(records, f, true, matcher))
  {
    FilterReverse(SortBy(Indexed(records), CursorKey(IndexFor(f.sort))), it => Matches(f, it));
  }

  /** An empty type and rating filter keep every catalogue record. */
  lemma NoFilterKeepsAll(records: seq<Stored>, f: Filters, ascending: bool, matcher: Matcher)
    requires f.search == "" && f.typeName == "" && f.rating == AnyRating
    ensures Query(records, f, ascending, matcher) == Cursor(records, IndexFor(f.sort), DirectionOf(ascending))
  {
    FilterAll(Cursor(records, IndexFor(f.sort), DirectionOf(ascending)), it => Matches(f, it));
  }
}
