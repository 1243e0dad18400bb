/**
 * The home page of the current site: published articles and wiki entries (the wiki's
 * own index page left out) merged into one feed, newest first. Articles carry a date;
 * wiki entries carry the date of their last change when it is known, and comparing an
 * entry without one aborts the build.
 */
module HomeFeed {
  import opened Wrappers
  import opened Seqs
  import opened Ordering
  import opened Calendar
  import Blog
  import WikiNav

  /** `IndexEntry`. */
  datatype FeedItem = BlogItem(post: Blog.Post) | WikiItem(entry: WikiNav.WikiEntry)

  predicate NotIndex(e: WikiNav.WikiEntry)
  {
    e.id != "index"
  }

  function BlogItems(ps: seq<Blog.Post>): (r: seq<FeedItem>)
    ensures |r| == |ps| && forall i :: 0 <= i < |ps| ==> r[i] == BlogItem(ps[i])
  {
    seq(|ps|, i requires 0 <= i < |ps| => BlogItem(ps[i]))
  }

  function WikiItems(es: seq<WikiNav.WikiEntry>): (r: seq<FeedItem>)
    ensures |r| == |es| && forall i :: 0 <= i < |es| ==> r[i] == WikiItem(es[i])
  {
    seq(|es|, i requires 0 <= i < |es| => WikiItem(es[i]))
  }

  /** `merged` before sorting: the published articles, then the wiki entries other than `index`. */
  function Candidates(posts: seq<Blog.Post>, entries: seq<WikiNav.WikiEntry>): seq<FeedItem>
  {
    BlogItems(Blog.Published(posts)) + WikiItems(Filter(entries, NotIndex))
  }

  /** The date the comparator reads; `None` where it would unwrap nothing. */
  function DateOf(x: FeedItem): Option<Date>
  {
    match x
    case BlogItem(p) => Some(p.date)
    case WikiItem(e) => e.lastModified
  }

  /** Newest first; an undated item is never compared when the feed is built. */
  function FeedKey(x: FeedItem): seq<int>
  {
    if DateOf(x).Some? then [-DateOf(x).value.year, -DateOf(x).value.month, -DateOf(x).value.day] else []
  }

  /**
   * Whether `sort_by` reaches the `unwrap` of a missing date: with two items or more every
   * item is compared at least once, with fewer none is.
   */
  predicate Panics(c: seq<FeedItem>)
  {
    |c| >= 2 && exists i :: 0 <= i < |c| && DateOf(c[i]).None?
  }

  /** The feed, or `None` where building it panics. */
  function Feed(posts: seq<Blog.Post>, entries: seq<WikiNav.WikiEntry>): (r: Option<seq<FeedItem>>)
    ensures r.None? <==> Panics(Candidates(posts, entries))
    ensures r.Some? ==> multiset(r.value) == multiset(Candidates(posts, entries))
  {
    var c := Candidates(posts, entries);
    if Panics(c) then None else Some(SortBy(c, FeedKey))
  }

  // ---------------------------------------------------------------- properties

  /** A candidate is a published article or a wiki entry other than `index`. */
  lemma CandidateMembers(posts: seq<Blog.Post>, entries: seq<WikiNav.WikiEntry>, x: FeedItem)
    ensures x in Candidates(posts, entries) <==>
              (x.BlogItem? && x.post in posts && !Blog.IsDraft(x.post)) ||
              (x.WikiItem? && x.entry in entries && NotIndex(x.entry))
  {
    var bs := Blog.Published(posts);
    var ws := Filter(entries, NotIndex);
    assert x in Candidates(posts, entries) <==> x in BlogItems(bs) || x in WikiItems(ws);
    assert x in BlogItems(bs) <==> x.BlogItem? && x.post in bs by {
      if x.BlogItem? && x.post in bs {
        var i :| 0 <= i < |bs| && bs[i] == x.post;
        assert BlogItems(bs)[i] == x;
      }
    }
    assert x in WikiItems(ws) <==> x.WikiItem? && x.entry in ws by {
      if x.WikiItem? && x.entry in ws {
        var i :| 0 <= i < |ws| && ws[i] == x.entry;
        assert WikiItems(ws)[i] == x;
      }
    }
  }

  /** The feed holds exactly the published articles and the wiki entries other than `index`. */
  lemma FeedMembers(posts: seq<Blog.Post>, entries: seq<WikiNav.WikiEntry>, x: FeedItem)
    requires Feed(posts, entries).Some?
    ensures x in Feed(posts, entries).value <==>
              (x.BlogItem? && x.post in posts && !Blog.IsDraft(x.post)) ||
              (x.WikiItem? && x.entry in entries && NotIndex(x.entry))
  {
    var r := Feed(posts, entries).value;
    assert x in r <==> x in multiset(r);
    CandidateMembers(posts, entries, x);
  }

  /** Two dated items' keys compare as their dates do, the other way round. */
  lemma FeedKeyOrder(x: FeedItem, y: FeedItem)
    requires DateOf(x).Some? && DateOf(y).Some?
    ensures LexLe(FeedKey(x), FeedKey(y)) <==> Blog.DateLe(DateOf(y).value, DateOf(x).value)
  {
    var p := Blog.Post("", None, [], DateOf(x).value);
    var q := Blog.Post("", None, [], DateOf(y).value);
    assert FeedKey(x) == Blog.NewestFirst()(p) && FeedKey(y) == Blog.NewestFirst()(q);
    Blog.NewestFirstOrder(p, q);
  }

  /** In a feed of two items or more, every item is dated, and no item is older than one after it. */
  lemma FeedOrder(posts: seq<Blog.Post>, entries: seq<WikiNav.WikiEntry>, i: int, j: int)
    requires Feed(posts, entries).Some?
    requires 0 <= i < j < |Feed(posts, entries).value|
    ensures var r := Feed(posts, entries).value;
            && DateOf(r[i]).Some? && DateOf(r[j]).Some?
            && Blog.DateLe(DateOf(r[j]).value, DateOf(r[i]).value)
  {
    var c := Candidates(posts, entries);
    var r := Feed(posts, entries).value;
    assert r[i] in multiset(c) && r[j] in multiset(c);
    FeedKeyOrder(r[i], r[j]);
  }

  /** Items of the same date keep the order of `merged`: articles in source order, then wiki entries. */
  lemma FeedTies(posts: seq<Blog.Post>, entries: seq<WikiNav.WikiEntry>, k: seq<int>)
    requires Feed(posts, entries).Some?
    ensures WithKey(Feed(posts, entries).value, FeedKey, k) == WithKey(Candidates(posts, entries), FeedKey, k)
  {
    SortByStable(Candidates(posts, entries), FeedKey, k);
  }

  /** A wiki entry without a last change date aborts the page as soon as anything else is listed with it. */
  lemma UndatedEntryPanics(posts: seq<Blog.Post>, entries: seq<WikiNav.WikiEntry>, e: WikiNav.WikiEntry, p: Blog.Post)
    requires e in entries && NotIndex(e) && e.lastModified.None?
    requires p in posts && !Blog.IsDraft(p)
    ensures Feed(posts, entries).None?
  {
    var c := Candidates(posts, entries);
    CandidateMembers(posts, entries, WikiItem(e));
    CandidateMembers(posts, entries, BlogItem(p));
    var i :| 0 <= i < |c| && c[i] == WikiItem(e);
    var j :| 0 <= j < |c| && c[j] == BlogItem(p);
    assert i != j;
  }

  /** Without wiki entries the feed is the published articles, newest first. */
  lemma ArticlesOnly(posts: seq<Blog.Post>)
    ensures Feed(posts, []).Some?
    ensures forall x :: x in Feed(posts, []).value ==> x.BlogItem? && x.post in posts && !Blog.IsDraft(x.post)
  {
    var c := Candidates(posts, []);
    assert Filter([], NotIndex) == [];
    assert c == BlogItems(Blog.Published(posts));
    forall x | x in Feed(posts, []).value
      ensures x.BlogItem? && x.post in posts && !Blog.IsDraft(x.post)
    {
      FeedMembers(posts, [], x);
    }
  }
}
