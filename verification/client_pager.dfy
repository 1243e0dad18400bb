/**
 * The catalogue page's rendering state: the current result list, how many pages of 32
 * cards are shown, whether a query is in flight, and the content area. Infinite scroll
 * appends one page per scroll event near the bottom; a finished query replaces the
 * content with its first page.
 */
module ClientPager {
  import opened Text
  import opened CatalogueContent
  import opened ClientStore

  const PageSize := 32

  // ---------------------------------------------------------------- cards

  /** `getRatingEmoji`: one face per rating, nothing for other numbers. */
  function RatingEmoji(rating: int): (e: string)
    ensures e != "" <==> 0 <= rating <= 5
  {
    if rating == 5 then "\U{2764}\U{FE0F}"
    else if rating == 4 then "\U{1F970}"
    else if rating == 3 then "\U{1F642}"
    else if rating == 2 then "\U{1F610}"
    else if rating == 1 then "\U{1F615}"
    else if rating == 0 then "\U{1F641}"
    else ""
  }

  /** Every rating the build can write shows a face, and different ratings different faces. */
  lemma RatingEmojiOfRating(a: Rating, b: Rating)
    ensures RatingEmoji(ToNumber(a)) != ""
    ensures RatingEmoji(ToNumber(a)) == RatingEmoji(ToNumber(b)) ==> a == b
  {
    ToNumberInjective(a, b);
  }

  /** `/catalogue/<type>s/`, the folder of a type's entry pages. */
  function LinkPrefix(k: Kind): string
  {
    "/catalogue/" + TypeName(k) + "s/"
  }

  /** `-<type>`, what the id appends to the slug. */
  function Suffix(k: Kind): (s: string)
    ensures |s| > 0 && s[0] == '-'
  {
    "-" + TypeName(k)
  }

  lemma IdOfSuffix(slug: string, k: Kind)
    ensures IdOf(slug, k) == slug + Suffix(k)
  {
  }

  /**
   * The card link as written: the first occurrence of `-<type>` is removed from the id.
   * The id is the slug with `-<type>` appended, so when the slug itself contains
   * `-<type>` the wrong occurrence goes.
   */
  function LinkAsWritten(it: Item): string
  {
    LinkPrefix(it.kind) + ReplaceFirst(it.id, Suffix(it.kind), "")
  }

  /** The id with its trailing `-<type>` removed: the slug the id was made from. */
  function SlugOfId(id: string, k: Kind): (slug: string)
    ensures EndsWith(id, Suffix(k)) ==> id == slug + Suffix(k)
    ensures !EndsWith(id, Suffix(k)) ==> slug == id
  {
    if EndsWith(id, Suffix(k)) then id[..|id| - |Suffix(k)|] else id
  }

  /** The corrected card link, taking the suffix off the end. */
  function Link(it: Item): string
  {
    LinkPrefix(it.kind) + SlugOfId(it.id, it.kind)
  }

  /** Removing the trailing suffix recovers the slug, whatever the slug contains. */
  lemma SlugOfIdOf(slug: string, k: Kind)
    ensures SlugOfId(IdOf(slug, k), k) == slug
  {
    var suffix := Suffix(k);
    var id := slug + suffix;
    IdOfSuffix(slug, k);
    assert EndsWith(id, suffix) by {
      assert id[|id| - |suffix|..] == suffix;
    }
    assert id[..|id| - |suffix|] == slug;
  }

  /** The corrected link leads to the page of the slug the id was built from. */
  lemma LinkOfId(it: Item, slug: string)
    requires it.id == IdOf(slug, it.kind)
    ensures Link(it) == LinkPrefix(it.kind) + slug
  {
    SlugOfIdOf(slug, it.kind);
  }

  /** `replace` finds the first occurrence: a dash-free start pushes it to just after that start. */
  lemma ReplaceDropsInner(a: string, suffix: string, rest: string)
    requires '-' !in a && |suffix| > 0 && suffix[0] == '-'
    ensures ReplaceFirst(a + (suffix + rest), suffix, "") == a + rest
  {
    var tail := suffix + rest;
    var id := a + tail;
    assert id[|a|..|a| + |suffix|] == tail[..|suffix|] == suffix;
    forall p: nat | p < |a|
      ensures !OccursAt(id, suffix, p)
    {
      assert id[p] == a[p];
    }
    ReplaceFirstAt(id, suffix, "", |a|);
    assert id[..|a|] == a && id[|a| + |suffix|..] == rest;
  }

  /** As written, the link is right when the slug does not itself contain `-<type>` before its end. */
  lemma LinkAsWrittenWhenSlugClean(it: Item, slug: string)
    requires it.id == IdOf(slug, it.kind)
    requires forall p: nat :: p < |slug| ==> !OccursAt(it.id, Suffix(it.kind), p)
    ensures LinkAsWritten(it) == Link(it)
  {
    var suffix := Suffix(it.kind);
    IdOfSuffix(slug, it.kind);
    var id := slug + suffix;
    assert id[|slug|..|slug| + |suffix|] == suffix;
    ReplaceFirstAt(id, suffix, "", |slug|);
    assert id[..|slug|] == slug && id[|slug| + |suffix|..] == [];
    LinkOfId(it, slug);
  }

  /**
   * As written, the link drops the wrong `-<type>` when the slug contains it after a
   * dash-free start: the card of slug `a-<type>b` links to `ab-<type>`.
   */
  lemma LinkAsWrittenDropsInner(it: Item, a: string, b: string)
    requires '-' !in a
    requires it.id == IdOf(a + Suffix(it.kind) + b, it.kind)
    ensures LinkAsWritten(it) == LinkPrefix(it.kind) + (a + (b + Suffix(it.kind)))
    ensures Link(it) == LinkPrefix(it.kind) + (a + Suffix(it.kind) + b)
  {
    var suffix := Suffix(it.kind);
    IdOfSuffix(a + suffix + b, it.kind);
    assert it.id == a + (suffix + (b + suffix));
    ReplaceDropsInner(a, suffix, b + suffix);
    LinkOfId(it, a + suffix + b);
  }

  /** A game titled "Pre-game Show" gets the slug `pre-game-show`; as written its card links to `pre-show-game`. */
  lemma LinkAsWrittenMisses(it: Item)
    requires it.kind == Game && it.title == "Pre-game Show" && it.id == IdOf("pre-game-show", Game)
    ensures LinkAsWritten(it) == "/catalogue/games/pre-show-game"
    ensures Link(it) == "/catalogue/games/pre-game-show"
  {
    PreGameShowSpelling();
    LinkAsWrittenDropsInner(it, "pre", "-show");
  }

  lemma PreGameShowSpelling()
    ensures "pre" + Suffix(Game) + "-show" == "pre-game-show"
    ensures LinkPrefix(Game) + ("pre" + ("-show" + Suffix(Game))) == "/catalogue/games/pre-show-game"
    ensures LinkPrefix(Game) + ("pre" + Suffix(Game) + "-show") == "/catalogue/games/pre-game-show"
  {
    assert Suffix(Game) == "-game" && LinkPrefix(Game) == "/catalogue/games/";
  }

  // ---------------------------------------------------------------- the page

  datatype Block =
    | Card(link: string, item: Item, emoji: string)
    | NothingFound
    | LoadFailed

  /** A result's card, linked as written: the first `-<type>` of the id is removed. */
  function CardOf(it: Item): Block
  {
    Card(LinkAsWritten(it), it, RatingEmoji(it.rating))
  }

  /**
   * A card leads to its entry's page when the slug does not contain `-<type>` before its
   * end; the "Pre-game Show" card does not.
   */
  lemma CardLink(it: Item, slug: string)
    requires it.id == IdOf(slug, it.kind)
    ensures (forall p: nat :: p < |slug| ==> !OccursAt(it.id, Suffix(it.kind), p)) ==>
              CardOf(it).link == LinkPrefix(it.kind) + slug
    ensures it.kind == Game && it.title == "Pre-game Show" && slug == "pre-game-show" ==>
              CardOf(it).link == "/catalogue/games/pre-show-game" != LinkPrefix(it.kind) + slug
  {
    if forall p: nat :: p < |slug| ==> !OccursAt(it.id, Suffix(it.kind), p) {
      LinkAsWrittenWhenSlugClean(it, slug);
      LinkOfId(it, slug);
    }
    if it.kind == Game && it.title == "Pre-game Show" && slug == "pre-game-show" {
      LinkAsWrittenMisses(it);
      assert LinkPrefix(it.kind) + slug == "/catalogue/games/pre-game-show";
    }
  }

  function Cards(items: seq<Item>): (bs: seq<Block>)
    ensures |bs| == |items|
    ensures forall i :: 0 <= i < |items| ==> bs[i] == CardOf(items[i])
  {
    seq(|items|, i requires 0 <= i < |items| => CardOf(items[i]))
  }

  lemma CardsConcat(a: seq<Item>, b: seq<Item>)
    ensures Cards(a + b) == Cards(a) + Cards(b)
  {
  }

  datatype UI = UI(allItems: seq<Item>, currentPage: nat, isLoading: bool, content: seq<Block>, countText: string)

  function Min(a: int, b: int): int
  {
    if a < b then a else b
  }

  /** `slice(start, start + 32)`, which clamps both ends to the length. */
  function PageItems(items: seq<Item>, page: nat): (r: seq<Item>)
    ensures |r| == Min(PageSize, |items| - Min(page * PageSize, |items|))
    ensures r == items[Min(page * PageSize, |items|)..Min(page * PageSize + PageSize, |items|)]
  {
    items[Min(page * PageSize, |items|)..Min(page * PageSize + PageSize, |items|)]
  }

  /**
   * `renderPage`: append the cards of the current page and advance, or, when the page is
   * empty, replace the content with the "nothing found" message and stop loading.
   */
  function RenderPage(ui: UI): (r: UI)
    ensures r.allItems == ui.allItems && r.countText == ui.countText
    ensures ui.currentPage * PageSize < |ui.allItems| ==>
      r == ui.(currentPage := ui.currentPage + 1, content := ui.content + Cards(PageItems(ui.allItems, ui.currentPage)))
    ensures ui.currentPage * PageSize >= |ui.allItems| ==>
      r == ui.(isLoading := false, content := [NothingFound])
  {
    var page := PageItems(ui.allItems, ui.currentPage);
    if |page| == 0 then ui.(isLoading := false, content := [NothingFound])
    else ui.(content := ui.content + Cards(page), currentPage := ui.currentPage + 1)
  }

  predicate HasMorePages(ui: UI)
  {
    ui.currentPage * PageSize < |ui.allItems|
  }

  /** `handleScroll`; `nearBottom` is the viewport test (within 250 pixels of the end). */
  function HandleScroll(ui: UI, nearBottom: bool): (r: UI)
    ensures ui.isLoading || !HasMorePages(ui) || !nearBottom ==> r == ui
  {
    if ui.isLoading || !HasMorePages(ui) then ui
    else if nearBottom then RenderPage(ui)
    else ui
  }

  /** The start of `buildUI`: a call while a query is in flight returns at once. */
  function BeginBuild(ui: UI): (r: (UI, bool))
    ensures r.1 <==> !ui.isLoading
    ensures r.1 ==> r.0 == ui.(isLoading := true)
    ensures !r.1 ==> r.0 == ui
  {
    if ui.isLoading then (ui, false) else (ui.(isLoading := true), true)
  }

  function EntryCount(n: nat): string
  {
    NatToString(n) + " entries"
  }

  /** The end of `buildUI`: install the results, render the first page, count, and try one scroll. */
  function FinishBuild(ui: UI, results: seq<Item>, nearBottom: bool): (r: UI)
    ensures r.allItems == results && r.countText == EntryCount(|results|) && !r.isLoading
  {
    var cleared := ui.(allItems := results, currentPage := 0, content := []);
    var first := RenderPage(cleared);
    HandleScroll(first.(countText := EntryCount(|results|), isLoading := false), nearBottom)
  }

  /** `resetAndBuildUI`: back to page 0 with no items, then `buildUI`. */
  function ResetAndBuild(ui: UI): (r: (UI, bool))
    ensures r.0.currentPage == 0 && r.0.allItems == []
    ensures r.1 <==> !ui.isLoading
  {
    BeginBuild(ui.(currentPage := 0, allItems := []))
  }

  /** `errorUI`: the failure message replaces the content. */
  function ErrorUI(ui: UI): (r: UI)
    ensures r.content == [LoadFailed] && !r.isLoading
  {
    ui.(content := [LoadFailed], isLoading := false)
  }

  // ---------------------------------------------------------------- what is shown

  /**
   * The settled page: either no results and the "nothing found" message, or the first
   * `currentPage` pages of the results as cards, in order, with the last one non-empty.
   */
  ghost predicate Shown(ui: UI)
  {
    && !ui.isLoading
    && ui.countText == EntryCount(|ui.allItems|)
    && if |ui.allItems| == 0 then ui.currentPage == 0 && ui.content == [NothingFound]
       else
         && 1 <= ui.currentPage && (ui.currentPage - 1) * PageSize < |ui.allItems|
         && ui.content == Cards(ui.allItems[..Min(ui.currentPage * PageSize, |ui.allItems|)])
  }

  /** A finished query shows its first page (more if the viewport is already at the bottom). */
  lemma FinishShows(ui: UI, results: seq<Item>, nearBottom: bool)
    ensures Shown(FinishBuild(ui, results, nearBottom))
    ensures !nearBottom ==>
      FinishBuild(ui, results, nearBottom).content
        == (if |results| == 0 then [NothingFound] else Cards(results[..Min(PageSize, |results|)]))
  {
    var cleared := ui.(allItems := results, currentPage := 0, content := []);
    var first := RenderPage(cleared);
    if |results| > 0 {
      assert first.content == Cards(results[..Min(PageSize, |results|)]);
      ScrollKeepsShown(first.(countText := EntryCount(|results|), isLoading := false), nearBottom);
    }
  }

  /** Scrolling keeps the page settled and, near the bottom with more to show, adds exactly the next page. */
  lemma ScrollKeepsShown(ui: UI, nearBottom: bool)
    requires Shown(ui)
    ensures Shown(HandleScroll(ui, nearBottom))
    ensures nearBottom && HasMorePages(ui) ==> HandleScroll(ui, nearBottom).currentPage == ui.currentPage + 1
  {
    if nearBottom && HasMorePages(ui) {
      var n := |ui.allItems|;
      var lo := ui.currentPage * PageSize;
      var hi := Min(lo + PageSize, n);
      assert ui.allItems[..hi] == ui.allItems[..lo] + ui.allItems[lo..hi];
      CardsConcat(ui.allItems[..lo], ui.allItems[lo..hi]);
    }
  }

  /** Once there are no more pages, every result is on the page, in order, exactly once. */
  lemma AllShownAtEnd(ui: UI)
    requires Shown(ui) && !HasMorePages(ui)
    ensures ui.content == if |ui.allItems| == 0 then [NothingFound] else Cards(ui.allItems)
  {
    if |ui.allItems| > 0 {
      assert ui.allItems[..|ui.allItems|] == ui.allItems;
    }
  }

  function ScrollToBottom(ui: UI, k: nat): UI
    decreases k
  {
    if k == 0 then ui else ScrollToBottom(HandleScroll(ui, true), k - 1)
  }

  /** Enough scroll events at the bottom show every result. */
  lemma {:induction false} ScrollingShowsEverything(ui: UI, k: nat)
    requires Shown(ui) && k * PageSize >= |ui.allItems| - ui.currentPage * PageSize
    ensures Shown(ScrollToBottom(ui, k)) && !HasMorePages(ScrollToBottom(ui, k))
    ensures ScrollToBottom(ui, k).content == if |ui.allItems| == 0 then [NothingFound] else Cards(ui.allItems)
    decreases k
  {
    if k == 0 {
      AllShownAtEnd(ui);
    } else {
      ScrollKeepsShown(ui, true);
      var next := HandleScroll(ui, true);
      if HasMorePages(ui) {
        assert (k - 1) * PageSize >= |next.allItems| - next.currentPage * PageSize;
      } else {
        assert next == ui;
      }
      ScrollingShowsEverything(next, k - 1);
    }
  }

  /**
   * A filter change while a query is in flight is dropped: no new query starts, and the
   * running one installs its own results when it finishes.
   */
  lemma ChangeWhileLoadingIsDropped(ui: UI, results: seq<Item>, nearBottom: bool)
    requires ui.isLoading
    ensures !ResetAndBuild(ui).1
    ensures FinishBuild(ResetAndBuild(ui).0, results, nearBottom).allItems == results
  {
  }
}
