/**
 * The article pages of the site: the sidebar's tag and year counts, the article index,
 * and the paginated per-tag and per-year listings. A post is a draft when its `draft`
 * flag is set; an absent flag means published.
 */
module Blog {
  import opened Wrappers
  import opened Seqs
  import opened Ordering
  import opened Calendar

  datatype Post = Post(id: string, draft: Option<bool>, tags: seq<string>, date: Date)

  /** `draft.unwrap_or(false)`. */
  predicate IsDraft(p: Post)
  {
    p.draft == Some(true)
  }

  function NotDraft(): Post -> bool
  {
    (p: Post) => !IsDraft(p)
  }

  function Published(posts: seq<Post>): (r: seq<Post>)
    ensures forall p :: p in r <==> p in posts && !IsDraft(p)
  {
    Filter(posts, NotDraft())
  }

  /** Chronological order on dates, as `NaiveDate` compares them. */
  predicate DateLe(a: Date, b: Date)
  {
    a.year < b.year || (a.year == b.year && (a.month < b.month || (a.month == b.month && a.day <= b.day)))
  }

  /** A date as a descending sort key: every component negated. */
  function DateDescKey(d: Date): seq<int>
  {
    [-d.year, -d.month, -d.day]
  }

  /** Two descending date keys compare as their dates do, the other way round. */
  lemma DateDescKeyOrder(x: Date, y: Date)
    ensures LexLe(DateDescKey(x), DateDescKey(y)) <==> DateLe(y, x)
  {
    var a := DateDescKey(x);
    var b := DateDescKey(y);
    assert a[1..] == [-x.month, -x.day] && b[1..] == [-y.month, -y.day];
    assert a[1..][1..] == [-x.day] && b[1..][1..] == [-y.day];
    assert a[1..][1..][1..] == [] && b[1..][1..][1..] == [];
    assert LexLe(a[1..][1..][1..], b[1..][1..][1..]);
    assert LexLe(a[1..][1..], b[1..][1..]) <==> -x.day <= -y.day;
    assert LexLe(a[1..], b[1..]) <==>
      -x.month < -y.month || (-x.month == -y.month && -x.day <= -y.day);
  }

  /** Newest first: the post's date as a descending key. */
  function NewestFirst(): Post -> seq<int>
  {
    (p: Post) => DateDescKey(p.date)
  }

  /** Two post keys compare as the posts' dates do, the other way round. */
  lemma NewestFirstOrder(p: Post, q: Post)
    ensures LexLe(NewestFirst()(p), NewestFirst()(q)) <==> DateLe(q.date, p.date)
  {
    DateDescKeyOrder(p.date, q.date);
  }

  /** `sort_by(|a, b| b.date.cmp(&a.date))`: stable, newest first. */
  function ByDateDesc(posts: seq<Post>): (r: seq<Post>)
    ensures multiset(r) == multiset(posts)
    ensures forall i, j :: 0 <= i < j < |r| ==> DateLe(r[j].date, r[i].date)
  {
    var r := SortBy(posts, NewestFirst());
    forall i, j | 0 <= i < j < |r|
      ensures DateLe(r[j].date, r[i].date)
    {
      NewestFirstOrder(r[i], r[j]);
    }
    r
  }

  // ---------------------------------------------------------------- the article index

  /** The article index: published posts only, newest first. */
  function Index(posts: seq<Post>): (r: seq<Post>)
  {
    ByDateDesc(Published(posts))
  }

  /**
   * The index holds every published post once per occurrence and no draft, newest first;
   * posts of the same date keep their input order.
   */
  lemma IndexContents(posts: seq<Post>)
    ensures var r := Index(posts);
      multiset(r) == multiset(Published(posts)) &&
      (forall p :: p in r <==> p in posts && !IsDraft(p)) &&
      (forall i, j :: 0 <= i < j < |r| ==> DateLe(r[j].date, r[i].date)) &&
      forall k :: WithKey(r, NewestFirst(), k) == WithKey(Published(posts), NewestFirst(), k)
  {
    var r := Index(posts);
    forall p
      ensures p in r <==> p in Published(posts)
    {
      assert p in r <==> p in multiset(r);
    }
    forall k
      ensures WithKey(r, NewestFirst(), k) == WithKey(Published(posts), NewestFirst(), k)
    {
      SortByStable(Published(posts), NewestFirst(), k);
    }
  }

  // ---------------------------------------------------------------- sidebar counts

  /** The tags of the posts, one entry per occurrence, in order. */
  function AllTags(posts: seq<Post>): seq<string>
  {
    if |posts| == 0 then [] else posts[0].tags + AllTags(posts[1..])
  }

  /** How many times `x` occurs. */
  function Occurrences<K(==)>(xs: seq<K>, x: K): nat
  {
    if |xs| == 0 then 0 else (if xs[0] == x then 1 else 0) + Occurrences(xs[1..], x)
  }

  /** A value and how often it occurs: the entries of the sidebar's hash maps. */
  datatype Tallied<K> = Tallied(value: K, count: int)

  /** Each distinct value with its number of occurrences, in order of first appearance. */
  function Tally<K(==,!new)>(xs: seq<K>): (r: seq<Tallied<K>>)
    ensures forall p :: p in r <==> p.value in xs && p.count == Occurrences(xs, p.value)
    ensures forall i, j :: 0 <= i < j < |r| ==> r[i].value != r[j].value
  {
    var ks := Dedup(xs);
    var r := seq(|ks|, i requires 0 <= i < |ks| => Tallied(ks[i], Occurrences(xs, ks[i]) as int));
    assert forall p :: p in r <==> p.value in ks && p.count == Occurrences(xs, p.value) by {
      forall p: Tallied<K> | p.value in ks && p.count == Occurrences(xs, p.value)
        ensures p in r
      {
        var i :| 0 <= i < |ks| && ks[i] == p.value;
        assert r[i] == p;
      }
    }
    r
  }

  /** Count descending, then name ascending. */
  function TagOrder(): Tallied<string> -> seq<int>
  {
    (t: Tallied<string>) => [-t.count] + StrKey(t.value)
  }

  /** Year descending. */
  function YearOrder(): Tallied<int> -> seq<int>
  {
    (y: Tallied<int>) => [-y.value]
  }

  /**
   * `get_sorted_tags_and_years`, tags half: every tag of a published post with its number
   * of occurrences among published posts, most used first, ties by name.
   */
  function TagCounts(posts: seq<Post>): seq<Tallied<string>>
  {
    SortBy(Tally(AllTags(Published(posts))), TagOrder())
  }

  /** The years half: every year of a published post with its number of posts, latest first. */
  function YearCounts(posts: seq<Post>): seq<Tallied<int>>
  {
    SortBy(Tally(Years(Published(posts))), YearOrder())
  }

  function Years(posts: seq<Post>): (ys: seq<int>)
    ensures |ys| == |posts| && forall i :: 0 <= i < |posts| ==> ys[i] == posts[i].date.year
  {
    seq(|posts|, i requires 0 <= i < |posts| => posts[i].date.year)
  }

  /** Sorting keeps exactly the elements that went in. */
  lemma SortedMembers<T(!new)>(s: seq<T>, key: T -> seq<int>, x: T)
    ensures x in SortBy(s, key) <==> x in s
  {
    assert x in SortBy(s, key) <==> x in multiset(SortBy(s, key));
  }

  /** A tag is counted iff a published post carries it, with its number of uses on published posts. */
  lemma TagCountsMembers(posts: seq<Post>, t: string, n: int)
    ensures Tallied(t, n) in TagCounts(posts) <==>
              t in AllTags(Published(posts)) && n == Occurrences(AllTags(Published(posts)), t)
  {
    SortedMembers(Tally(AllTags(Published(posts))), TagOrder(), Tallied(t, n));
  }

  /** Each tag is listed once; a more used tag comes first, and equally used tags go by name. */
  lemma TagCountsOrder(posts: seq<Post>)
    ensures var r := TagCounts(posts);
      forall i, j :: 0 <= i < j < |r| ==>
        r[i].value != r[j].value && (r[i].count > r[j].count || (r[i].count == r[j].count && StrLe(r[i].value, r[j].value)))
  {
    var t := Tally(AllTags(Published(posts)));
    var r := TagCounts(posts);
    DistinctValues(t, r);
    forall i, j | 0 <= i < j < |r|
      ensures r[i].value != r[j].value && (r[i].count > r[j].count || (r[i].count == r[j].count && StrLe(r[i].value, r[j].value)))
    {
      assert LexLe(TagOrder()(r[i]), TagOrder()(r[j]));
      if r[i].count == r[j].count {
        LexLeSharedPrefix([-r[i].count], StrKey(r[i].value), StrKey(r[j].value));
      } else {
        LexLeEqualWidth([-r[i].count], [-r[j].count], StrKey(r[i].value), StrKey(r[j].value));
      }
    }
  }

  /** A year is listed iff a published post is from it, with its number of published posts. */
  lemma YearCountsMembers(posts: seq<Post>, y: int, n: int)
    ensures Tallied(y, n) in YearCounts(posts) <==>
              y in Years(Published(posts)) && n == Occurrences(Years(Published(posts)), y)
  {
    SortedMembers(Tally(Years(Published(posts))), YearOrder(), Tallied(y, n));
  }

  /** Years are listed once each, latest first. */
  lemma YearCountsOrder(posts: seq<Post>)
    ensures var r := YearCounts(posts);
      forall i, j :: 0 <= i < j < |r| ==> r[i].value > r[j].value
  {
    var t := Tally(Years(Published(posts)));
    var r := YearCounts(posts);
    DistinctValues(t, r);
    forall i, j | 0 <= i < j < |r|
      ensures r[i].value > r[j].value
    {
      var a := YearOrder()(r[i]);
      var b := YearOrder()(r[j]);
      assert LexLe(a, b);
      assert a == [-r[i].value] && b == [-r[j].value];
      assert a[0] <= b[0];
      assert r[i].value != r[j].value;
    }
  }

  /** Rearranging values that are pairwise distinct keeps them pairwise distinct. */
  lemma DistinctValues<K(!new)>(s: seq<Tallied<K>>, r: seq<Tallied<K>>)
    requires forall a, b :: 0 <= a < b < |s| ==> s[a].value != s[b].value
    requires multiset(r) == multiset(s)
    ensures forall i, j :: 0 <= i < j < |r| ==> r[i].value != r[j].value
  {
    NoDupPermutation(s, r);
    forall i, j | 0 <= i < j < |r|
      ensures r[i].value != r[j].value
    {
      assert r[i] in multiset(s) && r[j] in multiset(s);
      var a :| 0 <= a < |s| && s[a] == r[i];
      var b :| 0 <= b < |s| && s[b] == r[j];
      assert a != b;
    }
  }

  /**
   * The counts do not depend on the order the hash map hands its entries over in: any
   * arrangement of the same (tag, count) pairs, sorted the same way, is this one.
   */
  lemma TagCountsUnique(posts: seq<Post>, other: seq<Tallied<string>>)
    requires multiset(other) == multiset(Tally(AllTags(Published(posts))))
    requires SortedBy(other, TagOrder())
    ensures other == TagCounts(posts)
  {
    var t := Tally(AllTags(Published(posts)));
    var r := TagCounts(posts);
    forall x, y | x in r && y in r && TagOrder()(x) == TagOrder()(y)
      ensures x == y
    {
      assert x in multiset(r) && y in multiset(r);
      assert ([-x.count] + StrKey(x.value))[1..] == StrKey(x.value);
      assert ([-y.count] + StrKey(y.value))[1..] == StrKey(y.value);
      StrKeyInjective(x.value, y.value);
    }
    SortedUnique(r, other, TagOrder());
  }

  // ---------------------------------------------------------------- tag and year listings

  const PostsPerPage: nat := 20

  /** A listing page: its key (a tag or a year), its number (`None` for the first) and its posts. */
  datatype Page<K> = Page(key: K, page: Option<nat>, items: seq<Post>)

  /** Page 0 has no number in its URL; later pages carry theirs. */
  function PageNumber(n: nat): Option<nat>
  {
    if n == 0 then None else Some(n)
  }

  /** The pages of one key's posts, 20 to a page, numbered from `n`. */
  function Listing<K>(k: K, posts: seq<Post>, n: nat): (r: seq<Page<K>>)
    ensures forall i :: 0 <= i < |r| ==> r[i].key == k
    decreases |posts|
  {
    if |posts| == 0 then []
    else if |posts| <= PostsPerPage then [Page(k, PageNumber(n), posts)]
    else [Page(k, PageNumber(n), posts[..PostsPerPage])] + Listing(k, posts[PostsPerPage..], n + 1)
  }

  /** One listing per key, in the order the keys are visited, each newest first. */
  function ListingPages<K(==)>(posts: seq<Post>, order: seq<K>, matches: K -> Post -> bool): seq<Page<K>>
  {
    if |order| == 0 then []
    else Listing(order[0], ByDateDesc(Filter(posts, matches(order[0]))), 0) + ListingPages(posts, order[1..], matches)
  }

  /** The posts of the pages with key `k`, page after page. */
  function KeyItems<K(==)>(pages: seq<Page<K>>, k: K): seq<Post>
  {
    if |pages| == 0 then []
    else (if pages[0].key == k then pages[0].items else []) + KeyItems(pages[1..], k)
  }

  lemma {:induction false} KeyItemsConcat<K>(a: seq<Page<K>>, b: seq<Page<K>>, k: K)
    ensures KeyItems(a + b, k) == KeyItems(a, k) + KeyItems(b, k)
    decreases |a|
  {
    if |a| == 0 {
      assert a + b == b;
    } else {
      assert (a + b)[1..] == a[1..] + b;
      KeyItemsConcat(a[1..], b, k);
    }
  }

  /** A listing's pages, read in order, give back its posts. */
  lemma {:induction false} ListingItems<K>(k: K, posts: seq<Post>, n: nat)
    ensures KeyItems(Listing(k, posts, n), k) == posts
    decreases |posts|
  {
    if |posts| > PostsPerPage {
      ListingItems(k, posts[PostsPerPage..], n + 1);
      var rest := Listing(k, posts[PostsPerPage..], n + 1);
      assert ([Page(k, PageNumber(n), posts[..PostsPerPage])] + rest)[1..] == rest;
      assert posts == posts[..PostsPerPage] + posts[PostsPerPage..];
    }
  }

  /** A listing has no page under any other key. */
  lemma {:induction false} ListingOther<K>(k: K, k': K, posts: seq<Post>, n: nat)
    requires k != k'
    ensures KeyItems(Listing(k, posts, n), k') == []
    decreases |posts|
  {
    if |posts| > PostsPerPage {
      ListingOther(k, k', posts[PostsPerPage..], n + 1);
      var rest := Listing(k, posts[PostsPerPage..], n + 1);
      assert ([Page(k, PageNumber(n), posts[..PostsPerPage])] + rest)[1..] == rest;
    }
  }

  /**
   * Pages hold 1 to 20 posts, every page but the last exactly 20, and the page numbers
   * run from `n` up.
   */
  predicate Paged<K>(r: seq<Page<K>>, n: nat)
  {
    (forall i :: 0 <= i < |r| ==> 0 < |r[i].items| <= PostsPerPage && r[i].page == PageNumber(n + i)) &&
    (forall i :: 0 <= i < |r| - 1 ==> |r[i].items| == PostsPerPage)
  }

  lemma {:induction false} ListingShape<K>(k: K, posts: seq<Post>, n: nat)
    ensures Paged(Listing(k, posts, n), n)
    decreases |posts|
  {
    var r := Listing(k, posts, n);
    if |posts| == 0 {
      assert r == [];
    } else if |posts| <= PostsPerPage {
      assert r == [Page(k, PageNumber(n), posts)];
    } else {
      var rest := Listing(k, posts[PostsPerPage..], n + 1);
      ListingShape(k, posts[PostsPerPage..], n + 1);
      assert Paged(rest, n + 1);
      assert r == [Page(k, PageNumber(n), posts[..PostsPerPage])] + rest;
      forall i | 0 < i < |r|
        ensures r[i] == rest[i - 1]
      {
      }
    }
  }

  /** Every visited key's pages hold exactly its matching posts, newest first. */
  lemma {:induction false} ListingPagesOf<K>(posts: seq<Post>, order: seq<K>, matches: K -> Post -> bool, k: K)
    requires NoDup(order)
    ensures KeyItems(ListingPages(posts, order, matches), k) ==
              if k in order then ByDateDesc(Filter(posts, matches(k))) else []
    decreases |order|
  {
    if |order| > 0 {
      var head := Listing(order[0], ByDateDesc(Filter(posts, matches(order[0]))), 0);
      KeyItemsConcat(head, ListingPages(posts, order[1..], matches), k);
      assert NoDup(order[1..]);
      ListingPagesOf(posts, order[1..], matches, k);
      if order[0] == k {
        ListingItems(k, ByDateDesc(Filter(posts, matches(k))), 0);
        assert k !in order[1..];
      } else {
        ListingOther(order[0], k, ByDateDesc(Filter(posts, matches(order[0]))), 0);
        assert k in order <==> k in order[1..];
      }
    }
  }

  /** `|article| article.tags.contains(&tag)`. */
  function HasTag(): string -> Post -> bool
  {
    (t: string) => (p: Post) => t in p.tags
  }

  /** `|article| article.date.year() == year`. */
  function InYear(): int -> Post -> bool
  {
    (y: int) => (p: Post) => p.date.year == y
  }

  /** The tags of published posts: the tags that get pages. */
  function PublishedTags(posts: seq<Post>): seq<string>
  {
    AllTags(Published(posts))
  }

  /**
   * The tag pages as written: one listing per tag of a published post, `order` being the
   * hash set's iteration order; each listing is every post carrying the tag, drafts too.
   */
  function TagPagesAsWritten(posts: seq<Post>, order: seq<string>): seq<Page<string>>
  {
    ListingPages(posts, order, HasTag())
  }

  /** The tag pages with drafts kept out of the listings, as the index and the counts keep them out. */
  function TagPages(posts: seq<Post>, order: seq<string>): seq<Page<string>>
  {
    ListingPages(Published(posts), order, HasTag())
  }

  /** The year pages as written: each listing is every post of the year, drafts too. */
  function YearPagesAsWritten(posts: seq<Post>, order: seq<int>): seq<Page<int>>
  {
    ListingPages(posts, order, InYear())
  }

  /** The year pages with drafts kept out of the listings. */
  function YearPages(posts: seq<Post>, order: seq<int>): seq<Page<int>>
  {
    ListingPages(Published(posts), order, InYear())
  }

  /** Whether the listed order visits each tag of a published post once, as the hash set does. */
  ghost predicate EnumeratesTags(order: seq<string>, posts: seq<Post>)
  {
    NoDup(order) && forall t :: t in order <==> t in PublishedTags(posts)
  }

  ghost predicate EnumeratesYears(order: seq<int>, posts: seq<Post>)
  {
    NoDup(order) && forall y :: y in order <==> y in Years(Published(posts))
  }

  /** A draft carrying a tag that also has a published post is listed on that tag's pages. */
  lemma DraftOnTagPage(posts: seq<Post>, order: seq<string>, d: Post, t: string)
    requires EnumeratesTags(order, posts)
    requires d in posts && IsDraft(d) && t in d.tags && t in PublishedTags(posts)
    ensures d in KeyItems(TagPagesAsWritten(posts, order), t)
  {
    ListingPagesOf(posts, order, HasTag(), t);
    assert d in multiset(ByDateDesc(Filter(posts, HasTag()(t))));
  }

  /** A draft from a year that also has a published post is listed on that year's pages. */
  lemma DraftOnYearPage(posts: seq<Post>, order: seq<int>, d: Post)
    requires EnumeratesYears(order, posts)
    requires d in posts && IsDraft(d) && d.date.year in Years(Published(posts))
    ensures d in KeyItems(YearPagesAsWritten(posts, order), d.date.year)
  {
    ListingPagesOf(posts, order, InYear(), d.date.year);
    assert d in multiset(ByDateDesc(Filter(posts, InYear()(d.date.year))));
  }

  /** Posts whose tag has a published post: a draft and the published post. */
  function DraftExample(): seq<Post>
  {
    [Post("live", None, ["rust"], Date(2024, 1, 1)), Post("wip", Some(true), ["rust"], Date(2024, 2, 1))]
  }

  /** The draft "wip" shows up on the first page for "rust". */
  lemma TagPagesAsWrittenLeaksDraft()
    ensures var pages := TagPagesAsWritten(DraftExample(), ["rust"]);
      exists i :: 0 <= i < |pages| && pages[i].key == "rust" && DraftExample()[1] in pages[i].items
  {
    var posts := DraftExample();
    assert "rust" in posts[0].tags;
    assert Published(posts) == [posts[0]];
    assert PublishedTags(posts) == ["rust"];
    assert NoDup(["rust"]);
    DraftOnTagPage(posts, ["rust"], posts[1], "rust");
    var pages := TagPagesAsWritten(posts, ["rust"]);
    KeyItemsHas(pages, "rust", posts[1]);
  }

  /** A post among a key's items sits on one of that key's pages. */
  lemma {:induction false} KeyItemsHas<K>(pages: seq<Page<K>>, k: K, x: Post)
    requires x in KeyItems(pages, k)
    ensures exists i :: 0 <= i < |pages| && pages[i].key == k && x in pages[i].items
    decreases |pages|
  {
    if !(pages[0].key == k && x in pages[0].items) {
      KeyItemsHas(pages[1..], k, x);
      var i :| 0 <= i < |pages[1..]| && pages[1..][i].key == k && x in pages[1..][i].items;
      assert pages[i + 1] == pages[1..][i];
    }
  }

  /**
   * With drafts kept out, the pages of a tag hold exactly the published posts carrying it,
   * newest first, and no draft is listed anywhere; a tag of no published post has no pages.
   */
  lemma TagPagesContents(posts: seq<Post>, order: seq<string>, t: string)
    requires EnumeratesTags(order, posts)
    ensures var items := KeyItems(TagPages(posts, order), t);
      (t in PublishedTags(posts) ==> items == ByDateDesc(Filter(Published(posts), HasTag()(t)))) &&
      (t !in PublishedTags(posts) ==> items == []) &&
      forall p :: p in items <==> p in posts && !IsDraft(p) && t in p.tags && t in PublishedTags(posts)
  {
    ListingPagesOf(Published(posts), order, HasTag(), t);
    var items := KeyItems(TagPages(posts, order), t);
    forall p
      ensures p in items <==> p in posts && !IsDraft(p) && t in p.tags && t in PublishedTags(posts)
    {
      var live := Published(posts);
      if t in order {
        var f := Filter(live, HasTag()(t));
        SortedMembers(f, NewestFirst(), p);
        assert p in f <==> p in live && t in p.tags;
        assert p in live <==> p in posts && !IsDraft(p);
      }
    }
  }

  /** With drafts kept out, a year's pages hold exactly its published posts, newest first. */
  lemma YearPagesContents(posts: seq<Post>, order: seq<int>, y: int)
    requires EnumeratesYears(order, posts)
    ensures var items := KeyItems(YearPages(posts, order), y);
      (y in Years(Published(posts)) ==> items == ByDateDesc(Filter(Published(posts), InYear()(y)))) &&
      (y !in Years(Published(posts)) ==> items == []) &&
      forall p :: p in items <==> p in posts && !IsDraft(p) && p.date.year == y && y in Years(Published(posts))
  {
    ListingPagesOf(Published(posts), order, InYear(), y);
    var items := KeyItems(YearPages(posts, order), y);
    forall p
      ensures p in items <==> p in posts && !IsDraft(p) && p.date.year == y && y in Years(Published(posts))
    {
      var live := Published(posts);
      if y in order {
        var f := Filter(live, InYear()(y));
        SortedMembers(f, NewestFirst(), p);
        assert p in f <==> p in live && p.date.year == y;
        assert p in live <==> p in posts && !IsDraft(p);
      }
    }
  }
}
