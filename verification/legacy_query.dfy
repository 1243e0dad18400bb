/**
 * The older server-side catalogue endpoint, in its Vercel and AWS Lambda variants: the
 * query parameters, the SQL statement assembled from them (a WHERE/AND chain over the
 * filters, then an ORDER BY chosen by the sort), the fuzzy-search filter and re-ordering
 * of the rows, and the 30-item page that is returned. Running the statement is a
 * parameter: the rows it yields, in SQL order, are what the model receives.
 */
module LegacyQuery {
  import opened Wrappers
  import opened Text
  import opened Seqs
  import opened Ordering
  import CatalogueContent

  // ---------------------------------------------------------------- parameters

  datatype Sort = Alphabetical | Date | Rating | Unknown(name: string)

  datatype QueryParams = QueryParams(
    search: Option<string>,
    sort: Option<Sort>,
    kind: Option<string>,
    rating: Option<string>,
    before: Option<string>,
    after: Option<string>,
    page: Option<nat>)

  const NoParams: QueryParams := QueryParams(None, None, None, None, None, None, None)

  /** One more than the largest `usize` of a 64-bit target. */
  const UsizeLimit: nat := 0x1_0000_0000_0000_0000

  /** `usize::from_str`: an optional `+`, then at least one decimal digit, within range. */
  function ParseUsize(s: string): (r: Option<nat>)
    ensures r.Some? ==> r.value < UsizeLimit
  {
    var digits := if |s| > 0 && s[0] == '+' then s[1..] else s;
    if |digits| > 0 && AllDigits(digits, 10) && ValueOf(digits, 10) < UsizeLimit then Some(ValueOf(digits, 10))
    else None
  }

  /** A printed `usize` parses back to itself, and text with a non-digit does not parse. */
  lemma ParseUsizeRoundTrip(n: nat, s: string)
    requires n < UsizeLimit
    ensures ParseUsize(NatToString(n)) == Some(n)
    ensures (exists i :: 0 <= i < |s| && DigitValue(s[i]) >= 10 && (i > 0 || s[i] != '+')) ==> ParseUsize(s) == None
  {
    NatToStringValue(n);
    var t := NatToString(n);
    assert DigitValue(t[0]) < 10;
    if exists i :: 0 <= i < |s| && DigitValue(s[i]) >= 10 && (i > 0 || s[i] != '+') {
      var i :| 0 <= i < |s| && DigitValue(s[i]) >= 10 && (i > 0 || s[i] != '+');
      if |s| > 0 && s[0] == '+' {
        assert s[1..][i - 1] == s[i];
      }
    }
  }

  /** The snake_case wire name of each known sort. */
  function SortName(s: Sort): string
  {
    match s
    case Alphabetical => "alphabetical"
    case Date => "date"
    case Rating => "rating"
    case Unknown(n) => n
  }

  /** serde's snake_case names, with every other string caught by the untagged variant. */
  function SortFromQs(s: string): (r: Sort)
    ensures r.Unknown? <==> s !in {"alphabetical", "date", "rating"}
  {
    if s == "alphabetical" then Alphabetical
    else if s == "date" then Date
    else if s == "rating" then Rating
    else Unknown(s)
  }

  /** Every sort survives its wire name. */
  lemma SortFromQsName(s: Sort)
    requires s.Unknown? ==> s.name !in {"alphabetical", "date", "rating"}
    ensures SortFromQs(SortName(s)) == s
  {
  }

  /**
   * The Lambda variant's `Sort::from_str` as written: the derive without a case rule
   * accepts only the variant names themselves, and fills the untagged variant's string
   * with its default.
   */
  function SortFromStrAsWritten(s: string): (r: Option<Sort>)
    ensures r.Some? <==> s in {"Alphabetical", "Date", "Rating", "Unknown"}
  {
    if s == "Alphabetical" then Some(Alphabetical)
    else if s == "Date" then Some(Date)
    else if s == "Rating" then Some(Rating)
    else if s == "Unknown" then Some(Unknown(""))
    else None
  }

  /** The names the site sends are not recognised: a request for alphabetical order is served in date order. */
  lemma SortFromStrAsWrittenMisses()
    ensures SortFromStrAsWritten(SortName(Alphabetical)) == None
    ensures SortFromStrAsWritten(SortName(Rating)) == None
    ensures OrderBy(SortFromStrAsWritten(SortName(Alphabetical))) == OrderBy(Some(Date))
  {
  }

  /** The Lambda variant's sort parse with the snake_case names the sort type declares. */
  function SortFromStr(s: string): (r: Option<Sort>)
    ensures r.Some? <==> s in {"alphabetical", "date", "rating"}
  {
    if s in {"alphabetical", "date", "rating"} then Some(SortFromQs(s)) else None
  }

  /** The corrected parse understands exactly the names the Vercel variant understands. */
  lemma SortFromStrAgrees(s: string)
    ensures SortFromStr(s).Some? ==> SortFromStr(s) == Some(SortFromQs(s))
    ensures forall k :: k in {Alphabetical, Date, Rating} ==> SortFromStr(SortName(k)) == Some(k)
  {
  }

  function Lookup(m: map<string, string>, key: string): (r: Option<string>)
    ensures r.Some? <==> key in m
    ensures r.Some? ==> r.value == m[key]
  {
    if key in m then Some(m[key]) else None
  }

  /**
   * The Vercel variant: no query string gives no parameters; otherwise the decoded pairs
   * are read field by field, and a `page` that is not a `usize` fails the request.
   */
  function ParamsFromQs(query: Option<map<string, string>>): (r: Result<QueryParams, string>)
  {
    match query
    case None => Success(NoParams)
    case Some(m) =>
      var page := Lookup(m, "page");
      if page.Some? && ParseUsize(page.value).None? then Failure("invalid page")
      else
        Success(QueryParams(
          Lookup(m, "search"),
          if "sort" in m then Some(SortFromQs(m["sort"])) else None,
          Lookup(m, "type"), Lookup(m, "rating"), Lookup(m, "before"), Lookup(m, "after"),
          if page.Some? then ParseUsize(page.value) else None))
  }

  /**
   * The Lambda variant: the first value of each key; an unparseable `page` or `sort` is
   * simply absent. The sort goes through `Sort::from_str` as written.
   */
  function ParamsFromQueryMap(m: map<string, string>): QueryParams
  {
    QueryParams(
      Lookup(m, "search"),
      if "sort" in m then SortFromStrAsWritten(m["sort"]) else None,
      Lookup(m, "type"), Lookup(m, "rating"), Lookup(m, "before"), Lookup(m, "after"),
      if "page" in m then ParseUsize(m["page"]) else None)
  }

  /** The Lambda variant's reading with the corrected sort parse. */
  function ParamsFromQueryMapCorrected(m: map<string, string>): (q: QueryParams)
    ensures q.sort.Some? <==> "sort" in m && m["sort"] in {"alphabetical", "date", "rating"}
  {
    ParamsFromQueryMap(m).(sort := if "sort" in m then SortFromStr(m["sort"]) else None)
  }

  /**
   * Both readings agree on absent keys and on the string filters; the Lambda variant never
   * fails, an unparseable page there being no page, and the Vercel variant fails exactly
   * on an unparseable page.
   */
  lemma ParamsReadings(m: map<string, string>)
    ensures ParamsFromQs(None) == Success(NoParams) && ParamsFromQueryMap(map[]) == NoParams
    ensures ParamsFromQs(Some(m)).Failure? <==> "page" in m && ParseUsize(m["page"]).None?
    ensures ParamsFromQs(Some(m)).Success? ==>
              var p := ParamsFromQs(Some(m)).value;
              var q := ParamsFromQueryMap(m);
              && p.search == q.search && p.kind == q.kind && p.rating == q.rating
              && p.before == q.before && p.after == q.after && p.page == q.page
    ensures "page" in m && ParseUsize(m["page"]).None? ==> ParamsFromQueryMap(m).page == None
    ensures ParamsFromQs(Some(m)).Success? && "sort" in m && m["sort"] in {"alphabetical", "date", "rating"} ==>
              && ParamsFromQs(Some(m)).value.sort == Some(SortFromQs(m["sort"]))
              && ParamsFromQueryMap(m).sort == None
  {
  }

  /**
   * With the corrected sort parse, the Lambda reading equals the Vercel reading whenever
   * the latter succeeds and the sort, if any, is one the site sends.
   */
  lemma CorrectedReadingsAgree(m: map<string, string>)
    requires ParamsFromQs(Some(m)).Success?
    requires "sort" in m ==> m["sort"] in {"alphabetical", "date", "rating"}
    ensures ParamsFromQueryMapCorrected(m) == ParamsFromQs(Some(m)).value
  {
  }

  // ---------------------------------------------------------------- statement

  const SelectBase: string :=
    "SELECT a.*, c.src, c.placeholder FROM Catalogue a\n            INNER JOIN Cover c\n            ON c.id = a.cover"

  datatype Connective = Where | And

  function Keyword(c: Connective): string
  {
    match c
    case Where => " WHERE "
    case And => " AND "
  }

  datatype Param = Param(name: string, value: string)

  /** The statement so far, its named parameters, and the connective the next condition gets. */
  datatype Builder = Builder(statement: string, params: seq<Param>, next: Connective)

  /** A present filter adds its condition after the pending connective and binds its parameter. */
  function Push(b: Builder, v: Option<string>, name: string, condition: string): Builder
  {
    match v
    case None => b
    case Some(x) => Builder(b.statement + Keyword(b.next) + " " + condition, b.params + [Param(name, x)], And)
  }

  /** The filters in the order the handler tests them. */
  function Filtered(q: QueryParams): Builder
  {
    var b := Builder(SelectBase, [], Where);
    var b := Push(b, q.rating, ":rating", "rating = :rating");
    var b := Push(b, q.kind, ":type", "type = :type");
    var b := Push(b, q.before, ":before", "finishedDate < :before");
    Push(b, q.after, ":after", "finishedDate > :after")
  }

  /** A present filter: its parameter, its condition and its value. */
  datatype Condition = Condition(name: string, sql: string, value: string)

  function Present(v: Option<string>, name: string, sql: string): seq<Condition>
  {
    if v.Some? then [Condition(name, sql, v.value)] else []
  }

  /** The present filters in clause order: rating, type, a strict upper and a strict lower date bound. */
  function Conditions(q: QueryParams): (cs: seq<Condition>)
    ensures |cs| == 0 <==> q.rating.None? && q.kind.None? && q.before.None? && q.after.None?
  {
    Present(q.rating, ":rating", "rating = :rating") + Present(q.kind, ":type", "type = :type")
    + Present(q.before, ":before", "finishedDate < :before") + Present(q.after, ":after", "finishedDate > :after")
  }

  function Fragments(cs: seq<Condition>): (r: seq<string>)
    ensures |r| == |cs|
    ensures forall i :: 0 <= i < |cs| ==> r[i] == " " + cs[i].sql
  {
    seq(|cs|, i requires 0 <= i < |cs| => " " + cs[i].sql)
  }

  function Params(cs: seq<Condition>): (r: seq<Param>)
    ensures |r| == |cs|
    ensures forall i :: 0 <= i < |cs| ==> r[i] == Param(cs[i].name, cs[i].value)
  {
    seq(|cs|, i requires 0 <= i < |cs| => Param(cs[i].name, cs[i].value))
  }

  /** The clause as a reference: nothing, or the first connective and the conditions joined by " AND ". */
  function Clause(first: Connective, cs: seq<Condition>): string
  {
    if |cs| == 0 then "" else Keyword(first) + Join(Fragments(cs), " AND ")
  }

  function PushAll(b: Builder, cs: seq<Condition>): Builder
    decreases |cs|
  {
    if |cs| == 0 then b else PushAll(Push(b, Some(cs[0].value), cs[0].name, cs[0].sql), cs[1..])
  }

  lemma {:induction false} PushAllClause(b: Builder, cs: seq<Condition>)
    ensures PushAll(b, cs).statement == b.statement + Clause(b.next, cs)
    ensures PushAll(b, cs).params == b.params + Params(cs)
    decreases |cs|
  {
    if |cs| > 0 {
      var b' := Push(b, Some(cs[0].value), cs[0].name, cs[0].sql);
      PushAllClause(b', cs[1..]);
      assert PushAll(b, cs) == PushAll(b', cs[1..]);
      ClauseStep(b, cs);
      ParamsStep(b, cs);
    }
  }

  /** Pushing the first condition moves it from the clause into the statement. */
  lemma ClauseStep(b: Builder, cs: seq<Condition>)
    requires |cs| > 0
    ensures var b' := Push(b, Some(cs[0].value), cs[0].name, cs[0].sql);
            b'.statement + Clause(b'.next, cs[1..]) == b.statement + Clause(b.next, cs)
  {
    var c := cs[0];
    var s, k, x := b.statement, Keyword(b.next), " " + c.sql;
    var f := Fragments(cs[1..]);
    assert Fragments(cs) == [x] + f;
    if |cs| == 1 {
      Regroup(s, k, x, "", "");
    } else {
      JoinCons(x, f, " AND ");
      Regroup(s, k, x, " AND ", Join(f, " AND "));
    }
  }

  lemma Regroup(s: string, k: string, x: string, sep: string, j: string)
    ensures s + k + x + (sep + j) == s + (k + (x + sep + j))
    ensures s + k + x + "" == s + (k + x)
  {
  }

  /** Pushing the first condition moves its parameter from the list into the bound ones. */
  lemma ParamsStep(b: Builder, cs: seq<Condition>)
    requires |cs| > 0
    ensures var b' := Push(b, Some(cs[0].value), cs[0].name, cs[0].sql);
            b'.params + Params(cs[1..]) == b.params + Params(cs)
  {
    assert Params(cs) == [Param(cs[0].name, cs[0].value)] + Params(cs[1..]);
  }

  lemma PushPresent(b: Builder, v: Option<string>, name: string, sql: string)
    ensures Push(b, v, name, sql) == PushAll(b, Present(v, name, sql))
  {
    if v.Some? {
      assert Present(v, name, sql)[1..] == [];
    }
  }

  /** Four optional pushes are the pushes of the present ones. */
  lemma PushFour(b0: Builder,
                 v1: Option<string>, n1: string, s1: string, v2: Option<string>, n2: string, s2: string,
                 v3: Option<string>, n3: string, s3: string, v4: Option<string>, n4: string, s4: string)
    ensures Push(Push(Push(Push(b0, v1, n1, s1), v2, n2, s2), v3, n3, s3), v4, n4, s4)
              == PushAll(b0, Present(v1, n1, s1) + Present(v2, n2, s2) + Present(v3, n3, s3) + Present(v4, n4, s4))
  {
    var c1, c2, c3, c4 := Present(v1, n1, s1), Present(v2, n2, s2), Present(v3, n3, s3), Present(v4, n4, s4);
    var b1 := PushAll(b0, c1);
    var b2 := PushAll(b1, c2);
    var b3 := PushAll(b2, c3);
    PushPresent(b0, v1, n1, s1);
    PushPresent(b1, v2, n2, s2);
    PushPresent(b2, v3, n3, s3);
    PushPresent(b3, v4, n4, s4);
    PushAllConcat(b0, c1, c2 + c3 + c4);
    PushAllConcat(b1, c2, c3 + c4);
    PushAllConcat(b2, c3, c4);
    assert c1 + c2 + c3 + c4 == c1 + (c2 + c3 + c4);
    assert c2 + c3 + c4 == c2 + (c3 + c4);
  }

  lemma FilteredIsPushAll(q: QueryParams)
    ensures Filtered(q) == PushAll(Builder(SelectBase, [], Where), Conditions(q))
  {
    PushFour(Builder(SelectBase, [], Where),
             q.rating, ":rating", "rating = :rating", q.kind, ":type", "type = :type",
             q.before, ":before", "finishedDate < :before", q.after, ":after", "finishedDate > :after");
  }

  lemma {:induction false} PushAllConcat(b: Builder, xs: seq<Condition>, ys: seq<Condition>)
    ensures PushAll(b, xs + ys) == PushAll(PushAll(b, xs), ys)
    decreases |xs|
  {
    if |xs| > 0 {
      assert (xs + ys)[1..] == xs[1..] + ys && (xs + ys)[0] == xs[0];
      PushAllConcat(Push(b, Some(xs[0].value), xs[0].name, xs[0].sql), xs[1..], ys);
    } else {
      assert xs + ys == ys;
    }
  }

  /**
   * The filter part of the statement: the base query, then " WHERE " before the first
   * present filter and " AND " before every later one, with one named parameter per
   * present filter in the same order; no filter, no WHERE.
   */
  lemma FilteredShape(q: QueryParams)
    ensures var cs := Conditions(q);
            && Filtered(q).statement == SelectBase + (if |cs| == 0 then "" else " WHERE " + Join(Fragments(cs), " AND "))
            && Filtered(q).params == Params(cs)
  {
    FilteredIsPushAll(q);
    PushAllClause(Builder(SelectBase, [], Where), Conditions(q));
  }

  // ---------------------------------------------------------------- ordering

  const Indent: string := "\n                    "

  /** The `CASE` arm ranking one rating. */
  function WhenArm(r: CatalogueContent.Rating, rank: nat): string
  {
    Indent + "WHEN a.rating = '" + CatalogueContent.RatingName(r) + "' THEN " + NatToString(rank)
  }

  function WhenArms(rs: seq<CatalogueContent.Rating>, first: nat): string
    decreases |rs|
  {
    if |rs| == 0 then "" else WhenArm(rs[0], first) + WhenArms(rs[1..], first + 1)
  }

  /** The rank the `CASE` expression gives a rating column: the arm's number, or the `ELSE` value 7. */
  function CaseRank(column: string, rs: seq<CatalogueContent.Rating>, first: nat): (n: nat)
    decreases |rs|
  {
    if |rs| == 0 then 7
    else if CatalogueContent.RatingName(rs[0]) == column then first
    else CaseRank(column, rs[1..], first + 1)
  }

  /** The ORDER BY clause for a sort; an absent or unknown sort orders by date, newest first. */
  function OrderBy(sort: Option<Sort>): string
  {
    match sort
    case Some(Alphabetical) => " ORDER BY a.title ASC, a.finishedDate DESC;"
    case Some(Rating) =>
      " ORDER BY CASE" + WhenArms(CatalogueContent.AllRatings, 1) + Indent + "ELSE 7" + Indent + "END ASC, a.finishedDate DESC;"
    case _ => " ORDER BY a.finishedDate DESC;"
  }

  /**
   * Rating order ranks the six names 1 (masterpiece) to 6 (hated), the reverse of the
   * site's rating number, and anything else 7, after every named rating.
   */
  lemma CaseRankOfRating(r: CatalogueContent.Rating, column: string)
    ensures CaseRank(CatalogueContent.RatingName(r), CatalogueContent.AllRatings, 1) == 6 - CatalogueContent.ToNumber(r)
    ensures CatalogueContent.ParseRating(column).None? ==> CaseRank(column, CatalogueContent.AllRatings, 1) == 7
  {
    if CatalogueContent.ParseRating(column).None? {
      CaseRankUnnamed(column, CatalogueContent.AllRatings, 1);
    }
  }

  lemma {:induction false} CaseRankUnnamed(column: string, rs: seq<CatalogueContent.Rating>, first: nat)
    requires CatalogueContent.ParseRating(column).None?
    ensures CaseRank(column, rs, first) == 7
    decreases |rs|
  {
    if |rs| > 0 {
      CatalogueContent.ParseRatingName(rs[0]);
      CaseRankUnnamed(column, rs[1..], first + 1);
    }
  }

  /** The whole statement and its parameters. */
  function Statement(q: QueryParams): (string, seq<Param>)
  {
    var b := Filtered(q);
    (b.statement + OrderBy(q.sort), b.params)
  }

  // ---------------------------------------------------------------- search and pages

  /** What the page shows of a row. */
  datatype Row = Row(title: string, author: string, src: string, placeholder: string, rating: CatalogueContent.Rating)

  /** The fuzzy score of a title, 0 when the matcher finds no match. */
  function Score(matcher: (string, string) -> Option<int>, search: string, title: string): int
  {
    match matcher(search, title)
    case Some(s) => s
    case None => 0
  }

  function Matches(matcher: (string, string) -> Option<int>, search: string): Row -> bool
  {
    (row: Row) => Score(matcher, search, row.title) > 0
  }

  function ScoreKey(matcher: (string, string) -> Option<int>, search: string): Row -> seq<int>
  {
    (row: Row) => [-Score(matcher, search, row.title)]
  }

  /** Without a search the SQL order stands; with one, only positive scores stay, best first, ties in SQL order. */
  function Ranked(rows: seq<Row>, search: Option<string>, matcher: (string, string) -> Option<int>): (r: seq<Row>)
    ensures search.None? ==> r == rows
    ensures search.Some? ==> multiset(r) == multiset(Filter(rows, Matches(matcher, search.value)))
  {
    match search
    case None => rows
    case Some(q) => SortBy(Filter(rows, Matches(matcher, q)), ScoreKey(matcher, q))
  }

  /**
   * With a search, a row is kept exactly when its score is positive, the kept rows run from
   * the best score down, and rows of equal score keep their SQL order.
   */
  lemma RankedSearch(rows: seq<Row>, search: string, matcher: (string, string) -> Option<int>, score: int)
    ensures var r := Ranked(rows, Some(search), matcher);
            && (forall x :: x in r <==> x in rows && Score(matcher, search, x.title) > 0)
            && (forall i, j :: 0 <= i < j < |r| ==> Score(matcher, search, r[i].title) >= Score(matcher, search, r[j].title))
            && WithKey(r, ScoreKey(matcher, search), [-score]) == WithKey(Filter(rows, Matches(matcher, search)), ScoreKey(matcher, search), [-score])
  {
    var kept := Filter(rows, Matches(matcher, search));
    var key := ScoreKey(matcher, search);
    var r := Ranked(rows, Some(search), matcher);
    forall x
      ensures x in r <==> x in rows && Score(matcher, search, x.title) > 0
    {
      assert x in r <==> x in multiset(kept);
    }
    forall i, j | 0 <= i < j < |r|
      ensures Score(matcher, search, r[i].title) >= Score(matcher, search, r[j].title)
    {
      assert LexLe(key(r[i]), key(r[j]));
    }
    SortByStable(kept, key, [-score]);
  }

  const ItemsPerPage: nat := 30

  /** The zero-based page: `page.unwrap_or(1) - 1`; page 0 underflows the unsigned subtraction. */
  function PageOffset(page: Option<nat>): (r: Option<nat>)
    ensures page.None? ==> r == Some(0)
    ensures page.Some? ==> (r.Some? <==> page.value > 0)
  {
    match page
    case None => Some(0)
    case Some(p) => if p == 0 then None else Some(p - 1)
  }

  function Min(a: nat, b: nat): nat
  {
    if a <= b then a else b
  }

  /** The page window: from `offset * 30`, at most 30 items, clipped to the list. */
  function PageStart(total: nat, offset: nat): (start: nat)
    ensures start <= total
  {
    Min(offset * ItemsPerPage, total)
  }

  function PageItems<T>(items: seq<T>, offset: nat): (r: seq<T>)
    ensures |r| <= ItemsPerPage
  {
    var start := PageStart(|items|, offset);
    items[start..Min(start + ItemsPerPage, |items|)]
  }

  /** Consecutive pages follow each other without a gap or an overlap. */
  lemma PagesTile<T>(items: seq<T>, offset: nat)
    ensures PageItems(items, offset) + PageItems(items, offset + 1)
              == items[PageStart(|items|, offset)..Min((offset + 2) * ItemsPerPage, |items|)]
  {
    var a := PageStart(|items|, offset);
    var b := Min(a + ItemsPerPage, |items|);
    var c := Min((offset + 2) * ItemsPerPage, |items|);
    assert PageStart(|items|, offset + 1) == b;
    assert items[a..c] == items[a..b] + items[b..c];
  }

  /**
   * `Pages::page_count`: the number of 30-item pages a list of `total` items needs, the
   * last one possibly partial; an empty list has no page.
   */
  function PageCount(total: nat): (c: nat)
    ensures c == 0 <==> total == 0
    ensures c > 0 ==> (c - 1) * ItemsPerPage < total <= c * ItemsPerPage
  {
    (total + ItemsPerPage - 1) / ItemsPerPage
  }

  /** A page is within the count exactly when its window holds some item. */
  lemma PageWithinCount(total: nat, offset: nat)
    ensures offset < PageCount(total) <==> offset * ItemsPerPage < total
  {
    var c := PageCount(total);
    if offset < c {
      assert offset * ItemsPerPage <= (c - 1) * ItemsPerPage;
    } else if c > 0 {
      assert c * ItemsPerPage <= offset * ItemsPerPage;
    }
  }

  /** A page window lies within the list, and holds some item exactly when the page is within the count. */
  lemma PageWindow<T>(items: seq<T>, offset: nat)
    ensures PageStart(|items|, offset) <= |items|
    ensures PageItems(items, offset) == items[PageStart(|items|, offset)..PageStart(|items|, offset) + |PageItems(items, offset)|]
    ensures |PageItems(items, offset)| == Min(ItemsPerPage, |items| - PageStart(|items|, offset))
    ensures |PageItems(items, offset)| > 0 <==> offset < PageCount(|items|)
  {
    PageWithinCount(|items|, offset);
  }

  datatype Reply = Reply(totalItems: nat, itemsPerPage: nat, currentPage: nat, currentOffset: nat, totalPages: nat,
                         entries: seq<Row>)

  /**
   * The request once its parameters are read and its statement has produced `rows`: the
   * rows are ranked, and the requested page of them is returned with the totals. Page 0
   * is not a page.
   */
  function Respond(q: QueryParams, rows: seq<Row>, matcher: (string, string) -> Option<int>): (r: Option<Reply>)
    ensures r.Some? <==> q.page != Some(0)
  {
    match PageOffset(q.page)
    case None => None
    case Some(offset) =>
      var ranked := Ranked(rows, q.search, matcher);
      Some(PageReply(ranked, offset))
  }

  /** The reply for the page at `offset` of the ranked rows. */
  function PageReply(ranked: seq<Row>, offset: nat): Reply
  {
    Reply(|ranked|, ItemsPerPage, offset, PageStart(|ranked|, offset), PageCount(|ranked|), PageItems(ranked, offset))
  }

  lemma PageReplyShape(ranked: seq<Row>, offset: nat)
    ensures var r := PageReply(ranked, offset);
            && r.totalItems == |ranked| && r.currentPage == offset
            && r.currentOffset <= |ranked|
            && r.entries == ranked[r.currentOffset..r.currentOffset + |r.entries|]
            && |r.entries| == Min(ItemsPerPage, |ranked| - r.currentOffset)
            && r.totalPages == PageCount(|ranked|)
            && (|r.entries| > 0 <==> r.currentPage < r.totalPages)
  {
    PageWindow(ranked, offset);
  }

  /**
   * The reply counts every ranked row and the pages they fill, and its entries are the
   * ranked rows from its offset on, at most 30; they are empty exactly on a page past the
   * last one.
   */
  lemma RespondPage(q: QueryParams, rows: seq<Row>, matcher: (string, string) -> Option<int>)
    requires q.page != Some(0)
    ensures var r := Respond(q, rows, matcher).value;
            var ranked := Ranked(rows, q.search, matcher);
            && r.totalItems == |ranked|
            && r.currentPage == (if q.page.Some? then q.page.value - 1 else 0)
            && r.currentOffset <= |ranked|
            && r.entries == ranked[r.currentOffset..r.currentOffset + |r.entries|]
            && |r.entries| == Min(ItemsPerPage, |ranked| - r.currentOffset)
            && r.totalPages == PageCount(|ranked|)
            && (|r.entries| > 0 <==> r.currentPage < r.totalPages)
  {
    PageReplyShape(Ranked(rows, q.search, matcher), PageOffset(q.page).value);
  }

  /** Runs the statement built from the parameters. */
  function Run(q: QueryParams, run: (string, seq<Param>) -> seq<Row>): seq<Row>
  {
    var st := Statement(q);
    run(st.0, st.1)
  }

  /** The Vercel endpoint: a failed parameter read fails the request. */
  function VercelCatalogue(query: Option<map<string, string>>, run: (string, seq<Param>) -> seq<Row>,
                           matcher: (string, string) -> Option<int>): (r: Result<Option<Reply>, string>)
    ensures r.Failure? <==> ParamsFromQs(query).Failure?
  {
    match ParamsFromQs(query)
    case Failure(e) => Failure(e)
    case Success(q) => Success(Respond(q, Run(q, run), matcher))
  }

  /** The Lambda endpoint: the parameters always read. */
  function LambdaCatalogue(m: map<string, string>, run: (string, seq<Param>) -> seq<Row>,
                           matcher: (string, string) -> Option<int>): (r: Option<Reply>)
    ensures r.Some? <==> !("page" in m && ParseUsize(m["page"]) == Some(0))
  {
    Respond(ParamsFromQueryMap(m), Run(ParamsFromQueryMap(m), run), matcher)
  }

  /**
   * As written, the Lambda endpoint answers a request carrying any sort name other than the
   * capitalised variant names, the site's own `alphabetical` and `rating` among them,
   * exactly as it answers the same request without a sort: in date order.
   */
  lemma LambdaIgnoresSiteSort(m: map<string, string>, run: (string, seq<Param>) -> seq<Row>,
                              matcher: (string, string) -> Option<int>)
    requires "sort" in m && m["sort"] !in {"Alphabetical", "Date", "Rating", "Unknown"}
    ensures ParamsFromQueryMap(m).sort == None
    ensures OrderBy(ParamsFromQueryMap(m).sort) == OrderBy(Some(Date))
    ensures LambdaCatalogue(m, run, matcher) == LambdaCatalogue(m - {"sort"}, run, matcher)
  {
    assert ParamsFromQueryMap(m) == ParamsFromQueryMap(m - {"sort"});
  }

  /** The Lambda endpoint with the corrected sort parse. */
  function LambdaCatalogueCorrected(m: map<string, string>, run: (string, seq<Param>) -> seq<Row>,
                                    matcher: (string, string) -> Option<int>): (r: Option<Reply>)
    ensures r.Some? <==> !("page" in m && ParseUsize(m["page"]) == Some(0))
  {
    Respond(ParamsFromQueryMapCorrected(m), Run(ParamsFromQueryMapCorrected(m), run), matcher)
  }

  /**
   * Corrected, the Lambda endpoint gives the Vercel endpoint's reply on every request the
   * Vercel endpoint accepts whose sort, if any, is one the site sends.
   */
  lemma CorrectedEndpointsAgree(m: map<string, string>, run: (string, seq<Param>) -> seq<Row>,
                                matcher: (string, string) -> Option<int>)
    requires ParamsFromQs(Some(m)).Success?
    requires "sort" in m ==> m["sort"] in {"alphabetical", "date", "rating"}
    ensures VercelCatalogue(Some(m), run, matcher) == Success(LambdaCatalogueCorrected(m, run, matcher))
  {
    CorrectedReadingsAgree(m);
  }
}
