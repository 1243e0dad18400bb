/**
 * The older client-side catalogue browser: the whole catalogue is in memory, a type
 * select and a search box narrow it, and 30-item pages are shown with up and down
 * buttons. The model keeps the page number, the last page number, the select and the
 * search text, and the query string the page writes back into the address bar. The
 * search ranking is a parameter.
 */
module LegacyPager {
  import opened Wrappers
  import opened Text
  import opened Seqs
  import opened JsNumber

  const ElementsPerPage: nat := 30

  datatype Item = Item(url: string, title: string, cover: string, kind: string, creator: string)

  // ---------------------------------------------------------------- query strings

  /** `URLSearchParams`: ordered key/value pairs; keys may repeat. */
  type Params = seq<(string, string)>

  /** `get`: the first value under the key. */
  function GetParam(ps: Params, k: string): (r: Option<string>)
    ensures r.None? <==> forall i :: 0 <= i < |ps| ==> ps[i].0 != k
  {
    if |ps| == 0 then None
    else if ps[0].0 == k then Some(ps[0].1)
    else
      var r := GetParam(ps[1..], k);
      assert forall i :: 1 <= i < |ps| ==> ps[i] == ps[1..][i - 1];
      r
  }

  /** `delete`: every pair under the key goes. */
  function DeleteParam(ps: Params, k: string): (r: Params)
    ensures forall i :: 0 <= i < |r| ==> r[i].0 != k
    ensures forall p :: p in r <==> p in ps && p.0 != k
  {
    if |ps| == 0 then []
    else if ps[0].0 == k then DeleteParam(ps[1..], k)
    else [ps[0]] + DeleteParam(ps[1..], k)
  }

  /** `set`: the first pair under the key takes the value and later ones go; a new key is appended. */
  function SetParam(ps: Params, k: string, v: string): (r: Params)
  {
    if |ps| == 0 then [(k, v)]
    else if ps[0].0 == k then [(k, v)] + DeleteParam(ps[1..], k)
    else [ps[0]] + SetParam(ps[1..], k, v)
  }

  /** Setting a key then reading it gives the value; setting or deleting one key leaves every other key's value alone. */
  lemma {:induction false} ParamsLaws(ps: Params, k: string, v: string, k': string)
    ensures GetParam(SetParam(ps, k, v), k) == Some(v)
    ensures GetParam(DeleteParam(ps, k), k) == None
    ensures k' != k ==> GetParam(SetParam(ps, k, v), k') == GetParam(ps, k')
    ensures k' != k ==> GetParam(DeleteParam(ps, k), k') == GetParam(ps, k')
    decreases |ps|
  {
    if |ps| > 0 {
      ParamsLaws(ps[1..], k, v, k');
      if k' != k {
        DeleteKeeps(ps[1..], k, k');
      }
    }
  }

  lemma {:induction false} DeleteKeeps(ps: Params, k: string, k': string)
    requires k' != k
    ensures GetParam(DeleteParam(ps, k), k') == GetParam(ps, k')
    decreases |ps|
  {
    if |ps| > 0 {
      DeleteKeeps(ps[1..], k, k');
    }
  }

  // ---------------------------------------------------------------- controls

  /** A `<select>`: its option values and the selected index, -1 when nothing is selected. */
  datatype Select = Select(options: seq<string>, index: int)

  /** `select.value`: the selected option's value, "" when none is selected. */
  function SelectValue(s: Select): string
  {
    if 0 <= s.index < |s.options| then s.options[s.index] else ""
  }

  function FirstIndex(xs: seq<string>, v: string): (r: int)
    ensures -1 <= r < |xs|
    ensures r >= 0 ==> xs[r] == v && forall j :: 0 <= j < r ==> xs[j] != v
    ensures r == -1 <==> v !in xs
    decreases |xs|
  {
    if |xs| == 0 then -1
    else if xs[0] == v then 0
    else
      var r := FirstIndex(xs[1..], v);
      if r == -1 then -1 else r + 1
  }

  /** Assigning `select.value`: the first option with that value is selected, or nothing is. */
  function SetSelectValue(s: Select, v: string): (r: Select)
    ensures v in s.options ==> SelectValue(r) == v
    ensures v !in s.options ==> r.index == -1 && SelectValue(r) == ""
  {
    Select(s.options, FirstIndex(s.options, v))
  }

  /** The page state: the catalogue, the current and last page numbers, the type select and the search text. */
  datatype Pager = Pager(all: seq<Item>, currentPage: int, maxPage: int, typeSelect: Select, query: string)

  /** The last page index for `n` items: -1 when there are none. */
  function MaxPage(n: nat): int
  {
    var m := n / ElementsPerPage;
    if n % ElementsPerPage == 0 then m - 1 else m
  }

  /** The last page is the last non-empty one: `n` items fill pages 0 to `MaxPage(n)`, the last one partly. */
  lemma MaxPageBounds(n: nat)
    ensures n == 0 ==> MaxPage(n) == -1
    ensures n > 0 ==> 0 <= MaxPage(n) && MaxPage(n) * ElementsPerPage < n <= MaxPage(n) * ElementsPerPage + ElementsPerPage
  {
  }

  // ---------------------------------------------------------------- filtering

  function KindIs(kind: string): Item -> bool
  {
    (item: Item) => item.kind == kind
  }

  /** The type filter: skipped while the first option is selected, otherwise the items of exactly the selected type. */
  function FilterByType(items: seq<Item>, sel: Select, ps: Params): (r: (seq<Item>, Params))
    ensures sel.index == 0 ==> r == (items, ps)
    ensures sel.index != 0 ==> r == (Filter(items, KindIs(SelectValue(sel))), ps + [("type", SelectValue(sel))])
  {
    if sel.index == 0 then (items, ps)
    else (Filter(items, KindIs(SelectValue(sel))), ps + [("type", SelectValue(sel))])
  }

  /** The search: skipped for an empty query, otherwise the ranking's hits in its order. */
  function Search(items: seq<Item>, query: string, rank: (seq<Item>, string) -> seq<Item>): seq<Item>
  {
    if query == "" then items else rank(items, query)
  }

  /** The filtered library and the query string it implies, before any clamping. */
  function Library(p: Pager, rank: (seq<Item>, string) -> seq<Item>): (seq<Item>, Params)
  {
    var (byType, ps) := FilterByType(p.all, p.typeSelect, []);
    var found := Search(byType, p.query, rank);
    (found, if p.currentPage > 0 then SetParam(ps, "page", IntToString(p.currentPage)) else ps)
  }

  /** The last page is recomputed; a page past it is pulled back to it, then a negative page up to 0. */
  function Clamp(current: int, maxPage: int, ps: Params): (r: (int, Params))
  {
    var (c, ps1) := if current > maxPage then (maxPage, SetParam(ps, "page", IntToString(maxPage))) else (current, ps);
    if c < 0 then (0, DeleteParam(ps1, "page")) else (c, ps1)
  }

  /** `updateFilters`: the new page state, the filtered library, and the query string written to the address bar. */
  function UpdateFilters(p: Pager, resetPage: bool, rank: (seq<Item>, string) -> seq<Item>): (r: (Pager, seq<Item>, Params))
    ensures r.0.all == p.all && r.0.typeSelect == p.typeSelect && r.0.query == p.query
  {
    var p0 := if resetPage then p.(currentPage := 0) else p;
    var (library, ps) := Library(p0, rank);
    var maxPage := MaxPage(|library|);
    var (c, ps1) := Clamp(p0.currentPage, maxPage, ps);
    (p0.(currentPage := c, maxPage := maxPage), library, ps1)
  }

  /**
   * After an update the page is within the library: never negative, never past the last
   * page when there are items, and left alone when it already was within; the type
   * parameter is there exactly when the type filter applied.
   */
  lemma UpdateFiltersClamps(p: Pager, resetPage: bool, rank: (seq<Item>, string) -> seq<Item>)
    ensures var (q, library, ps) := UpdateFilters(p, resetPage, rank);
            var start := if resetPage then 0 else p.currentPage;
            && q.maxPage == MaxPage(|library|)
            && 0 <= q.currentPage
            && (|library| > 0 ==> q.currentPage <= q.maxPage && q.currentPage * ElementsPerPage < |library|)
            && (|library| == 0 ==> q.currentPage == 0)
            && (0 <= start <= q.maxPage ==> q.currentPage == start)
            && (GetParam(ps, "type").Some? <==> p.typeSelect.index != 0)
  {
    var p0 := if resetPage then p.(currentPage := 0) else p;
    var (byType, ps0) := FilterByType(p.all, p.typeSelect, []);
    var (library, ps) := Library(p0, rank);
    MaxPageBounds(|library|);
    var (c, ps1) := Clamp(p0.currentPage, MaxPage(|library|), ps);
    ParamsLaws(ps0, "page", IntToString(p0.currentPage), "type");
    var ps2 := if p0.currentPage > MaxPage(|library|) then SetParam(ps, "page", IntToString(MaxPage(|library|))) else ps;
    ParamsLaws(ps, "page", IntToString(MaxPage(|library|)), "type");
    ParamsLaws(ps2, "page", "", "type");
    if p.typeSelect.index != 0 {
      assert ps0 == [("type", SelectValue(p.typeSelect))];
    }
  }

  /** The address bar's page parameter, when present, names the current page, and it is present whenever that page is past the first. */
  lemma UpdateFiltersPageParam(p: Pager, resetPage: bool, rank: (seq<Item>, string) -> seq<Item>)
    ensures var (q, _, ps) := UpdateFilters(p, resetPage, rank);
            && (GetParam(ps, "page").Some? ==> GetParam(ps, "page") == Some(IntToString(q.currentPage)))
            && (q.currentPage > 0 ==> GetParam(ps, "page").Some?)
  {
    var p0 := if resetPage then p.(currentPage := 0) else p;
    var (byType, ps0) := FilterByType(p.all, p.typeSelect, []);
    var (library, ps) := Library(p0, rank);
    var maxPage := MaxPage(|library|);
    assert GetParam(ps0, "page") == None;
    ParamsLaws(ps0, "page", IntToString(p0.currentPage), "page");
    var ps2 := if p0.currentPage > maxPage then SetParam(ps, "page", IntToString(maxPage)) else ps;
    ParamsLaws(ps, "page", IntToString(maxPage), "page");
    ParamsLaws(ps2, "page", "", "page");
  }

  /** Page up: one page further when not on the last page, then the update. */
  function PageUp(p: Pager, rank: (seq<Item>, string) -> seq<Item>): (Pager, seq<Item>, Params)
  {
    var p1 := if p.currentPage < p.maxPage then p.(currentPage := p.currentPage + 1) else p;
    UpdateFilters(p1, false, rank)
  }

  /** Page down: one page back when past the first page, then the update. */
  function PageDown(p: Pager, rank: (seq<Item>, string) -> seq<Item>): (Pager, seq<Item>, Params)
  {
    var p1 := if p.currentPage > 0 then p.(currentPage := p.currentPage - 1) else p;
    UpdateFilters(p1, false, rank)
  }

  /** The state an update leaves: the page within the library and the last page matching it. */
  ghost predicate Settled(p: Pager, rank: (seq<Item>, string) -> seq<Item>)
  {
    var n := |Library(p.(currentPage := 0), rank).0|;
    p.maxPage == MaxPage(n) && 0 <= p.currentPage && (n > 0 ==> p.currentPage <= p.maxPage) && (n == 0 ==> p.currentPage == 0)
  }

  /** The library does not depend on the page number. */
  lemma LibraryIgnoresPage(p: Pager, c: int, rank: (seq<Item>, string) -> seq<Item>)
    ensures Library(p.(currentPage := c), rank).0 == Library(p, rank).0
  {
  }

  /**
   * On a settled page, page up moves one page on exactly when not on the last page and
   * page down one page back exactly when past the first; either way the result is settled.
   */
  lemma PageButtons(p: Pager, rank: (seq<Item>, string) -> seq<Item>)
    requires Settled(p, rank)
    ensures PageUp(p, rank).0.currentPage == (if p.currentPage < p.maxPage then p.currentPage + 1 else p.currentPage)
    ensures PageDown(p, rank).0.currentPage == (if p.currentPage > 0 then p.currentPage - 1 else p.currentPage)
    ensures Settled(PageUp(p, rank).0, rank) && Settled(PageDown(p, rank).0, rank)
  {
    var up := if p.currentPage < p.maxPage then p.(currentPage := p.currentPage + 1) else p;
    var down := if p.currentPage > 0 then p.(currentPage := p.currentPage - 1) else p;
    LibraryIgnoresPage(p, 0, rank);
    LibraryIgnoresPage(up, 0, rank);
    LibraryIgnoresPage(down, 0, rank);
    LibraryIgnoresPage(p, up.currentPage, rank);
    LibraryIgnoresPage(p, down.currentPage, rank);
    UpdateFiltersClamps(up, false, rank);
    UpdateFiltersClamps(down, false, rank);
    var r := UpdateFilters(up, false, rank).0;
    var s := UpdateFilters(down, false, rank).0;
    LibraryIgnoresPage(r, 0, rank);
    LibraryIgnoresPage(s, 0, rank);
    assert r.(currentPage := 0) == p.(currentPage := 0) == s.(currentPage := 0);
  }

  /** A filter control changed: the update starts again from the first page. */
  function FilterChanged(p: Pager, sel: Select, query: string, rank: (seq<Item>, string) -> seq<Item>): (Pager, seq<Item>, Params)
  {
    UpdateFilters(p.(typeSelect := sel, query := query), true, rank)
  }

  /** After a filter change the first page shows and the address carries no page number. */
  lemma FilterChangedFirstPage(p: Pager, sel: Select, query: string, rank: (seq<Item>, string) -> seq<Item>)
    ensures var (q, _, ps) := FilterChanged(p, sel, query, rank);
            q.currentPage == 0 && GetParam(ps, "page") == None
  {
    var p1 := p.(typeSelect := sel, query := query);
    UpdateFiltersClamps(p1, true, rank);
    UpdateFiltersPageParam(p1, true, rank);
  }

  /** `updatePageButtonStatus`: up is disabled on the last page (the first when there is none), down on the first. */
  function UpDisabled(p: Pager): bool
  {
    p.currentPage == if p.maxPage > 0 then p.maxPage else 0
  }

  function DownDisabled(p: Pager): bool
  {
    p.currentPage == 0
  }

  /** On a settled page a button is disabled exactly when pressing it would not move the page. */
  lemma ButtonsMatchMoves(p: Pager, rank: (seq<Item>, string) -> seq<Item>)
    requires Settled(p, rank)
    ensures UpDisabled(p) <==> PageUp(p, rank).0.currentPage == p.currentPage
    ensures DownDisabled(p) <==> PageDown(p, rank).0.currentPage == p.currentPage
  {
    PageButtons(p, rank);
  }

  // ---------------------------------------------------------------- rendering

  /** One rendered page: its items and the count line. */
  datatype Rendered = Rendered(items: seq<Item>, count: string)

  function Min(a: int, b: int): int
  {
    if a <= b then a else b
  }

  /** `buildLibrary`: the slice of the current page and "first - last of total element(s)". */
  function BuildLibrary(subset: seq<Item>, currentPage: nat): (r: Rendered)
    ensures |r.items| <= ElementsPerPage
  {
    var offset := currentPage * ElementsPerPage;
    var maxElements := if offset + ElementsPerPage > |subset| then |subset| else offset + ElementsPerPage;
    var items := if offset < maxElements then subset[offset..maxElements] else [];
    var count := NatToString(Min(offset + 1, maxElements)) + " - " + NatToString(maxElements) + " of "
                 + NatToString(|subset|) + " element" + (if |subset| > 0 then "s" else "");
    Rendered(items, count)
  }

  /**
   * The page shows the 30 items from `currentPage * 30`, fewer on the last page and none
   * past it, and the count line ends in "elements" exactly when the library is not empty.
   */
  lemma BuildLibraryPage(subset: seq<Item>, currentPage: nat)
    ensures var r := BuildLibrary(subset, currentPage);
            var offset := currentPage * ElementsPerPage;
            && (offset < |subset| ==> r.items == subset[offset..Min(offset + ElementsPerPage, |subset|)])
            && (offset >= |subset| ==> r.items == [])
            && (EndsWith(r.count, "elements") <==> |subset| > 0)
  {
    var r := BuildLibrary(subset, currentPage);
    var n := |subset|;
    if n > 0 {
      assert r.count[|r.count| - 8..] == "elements";
    } else {
      assert r.count[|r.count| - 1] == 't';
    }
  }

  // ---------------------------------------------------------------- reading the address

  /** `updateFiltersFromURL`: a `type` parameter selects that type; a `page` parameter sets the page, `NaN` meaning 0 and removal. */
  function FromURL(p: Pager, ps: Params): (r: (Pager, Params))
  {
    var p1 := match GetParam(ps, "type")
              case Some(t) => p.(typeSelect := SetSelectValue(p.typeSelect, t))
              case None => p;
    match GetParam(ps, "page")
    case None => (p1, ps)
    case Some(s) =>
      match ParseInt(s)
      case Some(n) => (p1.(currentPage := n), ps)
      case None => (p1.(currentPage := 0), DeleteParam(ps, "page"))
  }

  /** A page number that does not parse resets the page to the first and drops the parameter; one that parses is taken as it is. */
  lemma FromURLPage(p: Pager, ps: Params, n: int)
    ensures GetParam(ps, "page").Some? && ParseInt(GetParam(ps, "page").value).None? ==>
              FromURL(p, ps).0.currentPage == 0 && GetParam(FromURL(p, ps).1, "page") == None
    ensures GetParam(ps, "page") == Some(IntToString(n)) ==> FromURL(p, ps).0.currentPage == n
    ensures GetParam(ps, "page").None? ==> FromURL(p, ps).0.currentPage == p.currentPage
  {
    ParamsLaws(ps, "page", "", "page");
    ParseIntRoundTrip(n);
  }
}
