/**
 * The wiki's side navigation and its pages. Every entry not marked hidden gets a link,
 * labelled with its navigation label or else its title, under its own category; the
 * categories are listed in ascending name order with a capitalised heading, and each
 * category's links in ascending label order. The link of the page being viewed is
 * highlighted. Every entry, hidden or not, gets a page at `/wiki/{category}/{slug}`.
 */
module WikiNav {
  import opened Wrappers
  import opened Seqs
  import opened Ordering
  import opened Calendar
  import opened Paths
  import BackOffice

  datatype Navigation = Navigation(linkLabel: Option<string>, category: string, hidden: Option<bool>)

  /** A wiki entry: its id (the slug), title, navigation settings and, once known, the date of its last change. */
  datatype WikiEntry = WikiEntry(id: string, title: string, navigation: Navigation, lastModified: Option<Date>)

  /** `!hidden.unwrap_or(false)`. */
  predicate Listed(e: WikiEntry)
  {
    e.navigation.hidden != Some(true)
  }

  /** `label.unwrap_or(&title)`. */
  function Label(e: WikiEntry): string
  {
    if e.navigation.linkLabel.Some? then e.navigation.linkLabel.value else e.title
  }

  datatype NavLink = NavLink(text: string, slug: string, category: string)

  function LinkOf(e: WikiEntry): NavLink
  {
    NavLink(Label(e), e.id, e.navigation.category)
  }

  /** The links of the listed entries, in source order. */
  function NavLinks(entries: seq<WikiEntry>): (r: seq<NavLink>)
    ensures |r| <= |entries|
    ensures forall l :: l in r <==> exists i :: 0 <= i < |entries| && Listed(entries[i]) && LinkOf(entries[i]) == l
    decreases |entries|
  {
    if |entries| == 0 then []
    else
      var rest := NavLinks(entries[1..]);
      assert forall i :: 1 <= i < |entries| ==> entries[i] == entries[1..][i - 1];
      if Listed(entries[0]) then [LinkOf(entries[0])] + rest else rest
  }

  function LinkCategory(l: NavLink): string
  {
    l.category
  }

  function LabelKey(l: NavLink): seq<int>
  {
    StrKey(l.text)
  }

  /** The category of every link, with repeats. */
  function CategoryList(links: seq<NavLink>): (r: seq<string>)
    ensures |r| == |links| && forall i :: 0 <= i < |links| ==> r[i] == links[i].category
  {
    seq(|links|, i requires 0 <= i < |links| => links[i].category)
  }

  /** The categories, each once, in ascending name order: the keys of the sorted map. */
  function NavCategories(links: seq<NavLink>): seq<string>
  {
    SortBy(Dedup(CategoryList(links)), StrKey)
  }

  datatype NavGroup = NavGroup(category: string, heading: string, links: seq<NavLink>)

  /** `wiki_navigation`: one group per category, its links sorted by label, stably. */
  function WikiNavigation(entries: seq<WikiEntry>): (r: seq<NavGroup>)
    ensures |r| == |NavCategories(NavLinks(entries))|
  {
    var links := NavLinks(entries);
    var cs := NavCategories(links);
    seq(|cs|, i requires 0 <= i < |cs| =>
      NavGroup(cs[i], BackOffice.FormatCategoryName(cs[i]), SortBy(WithKey(links, LinkCategory, cs[i]), LabelKey)))
  }

  function GroupLinks(gs: seq<NavGroup>): (r: seq<seq<NavLink>>)
    ensures |r| == |gs| && forall i :: 0 <= i < |gs| ==> r[i] == gs[i].links
  {
    seq(|gs|, i requires 0 <= i < |gs| => gs[i].links)
  }

  /** The URL of the page for `(category, slug)`. */
  function PageUrl(category: string, slug: string): string
  {
    "/wiki/" + category + "/" + slug
  }

  /** A link is highlighted when it is the URL being viewed. */
  predicate IsCurrent(currentPath: string, l: NavLink)
  {
    currentPath == PageUrl(l.category, l.slug)
  }

  datatype WikiParams = WikiParams(category: string, slug: string)

  /** `WikiEntryPage::pages`: one page per entry, hidden ones included, in source order. */
  function Pages(entries: seq<WikiEntry>): (r: seq<WikiParams>)
    ensures |r| == |entries|
    ensures forall i :: 0 <= i < |entries| ==> r[i].slug == entries[i].id
  {
    seq(|entries|, i requires 0 <= i < |entries| => WikiParams(entries[i].navigation.category, entries[i].id))
  }

  // ---------------------------------------------------------------- properties

  /** The categories are strictly ascending and are exactly the categories of listed entries. */
  lemma NavCategoriesSorted(entries: seq<WikiEntry>)
    ensures var cs := NavCategories(NavLinks(entries));
            && NoDup(cs)
            && (forall i, j :: 0 <= i < j < |cs| ==> StrLe(cs[i], cs[j]) && cs[i] != cs[j])
            && (forall c :: c in cs <==> exists i :: 0 <= i < |entries| && Listed(entries[i]) && entries[i].navigation.category == c)
  {
    var links := NavLinks(entries);
    var d := Dedup(CategoryList(links));
    var cs := NavCategories(links);
    NoDupPermutation(d, cs);
    forall c
      ensures c in cs <==> exists i :: 0 <= i < |entries| && Listed(entries[i]) && entries[i].navigation.category == c
    {
      assert c in cs <==> c in multiset(cs);
      assert c in cs <==> c in d by {
        assert c in d <==> c in multiset(d);
      }
      if c in cs {
        assert c in CategoryList(links);
        var k :| 0 <= k < |CategoryList(links)| && CategoryList(links)[k] == c;
        assert links[k] in links;
      }
      if exists i :: 0 <= i < |entries| && Listed(entries[i]) && entries[i].navigation.category == c {
        var i :| 0 <= i < |entries| && Listed(entries[i]) && entries[i].navigation.category == c;
        assert LinkOf(entries[i]) in links;
        var k :| 0 <= k < |links| && links[k] == LinkOf(entries[i]);
        assert CategoryList(links)[k] == c;
      }
    }
  }

  /**
   * Each group is non-empty, holds only links of its own category, is sorted by label, and
   * carries its category's heading.
   */
  lemma NavigationGroups(entries: seq<WikiEntry>, i: int)
    requires 0 <= i < |WikiNavigation(entries)|
    ensures var g := WikiNavigation(entries)[i];
            && |g.links| > 0
            && (forall l :: l in g.links ==> l.category == g.category && l in NavLinks(entries))
            && (forall l :: l in NavLinks(entries) && l.category == g.category ==> l in g.links)
            && SortedBy(g.links, LabelKey)
            && g.heading == BackOffice.FormatCategoryName(g.category)
  {
    var links := NavLinks(entries);
    var cs := NavCategories(links);
    var g := WikiNavigation(entries)[i];
    var w := WithKey(links, LinkCategory, cs[i]);
    assert g.links == SortBy(w, LabelKey);
    forall l
      ensures l in g.links <==> l in links && l.category == g.category
    {
      assert l in g.links <==> l in multiset(w);
      WithKeyMembers(links, LinkCategory, cs[i], l);
    }
    NavCategoriesSorted(entries);
    assert cs[i] in cs;
    var e :| 0 <= e < |entries| && Listed(entries[e]) && entries[e].navigation.category == cs[i];
    assert LinkOf(entries[e]) in g.links;
  }

  /** The groups together hold every link of a listed entry exactly as often as the entries produce it. */
  lemma NavigationPartition(entries: seq<WikiEntry>)
    ensures multiset(Flatten(GroupLinks(WikiNavigation(entries)))) == multiset(NavLinks(entries))
  {
    var links := NavLinks(entries);
    var cs := NavCategories(links);
    NavCategoriesCover(entries);
    GroupsPartition(links, LinkCategory, cs);
    NavGroupsPermuted(entries);
    FlattenPermuted(GroupLinks(WikiNavigation(entries)), GroupsBy(links, LinkCategory, cs));
  }

  /** The categories are distinct and every listed link's category is among them. */
  lemma NavCategoriesCover(entries: seq<WikiEntry>)
    ensures var links := NavLinks(entries);
      var cs := NavCategories(links);
      NoDup(cs) && forall l :: l in links ==> LinkCategory(l) in cs
  {
    var links := NavLinks(entries);
    var cs := NavCategories(links);
    NavCategoriesSorted(entries);
    forall l | l in links
      ensures LinkCategory(l) in cs
    {
      var i :| 0 <= i < |entries| && Listed(entries[i]) && LinkOf(entries[i]) == l;
    }
  }

  /** Each group holds its category's links, reordered. */
  lemma NavGroupsPermuted(entries: seq<WikiEntry>)
    ensures var links := NavLinks(entries);
      var a := GroupLinks(WikiNavigation(entries));
      var b := GroupsBy(links, LinkCategory, NavCategories(links));
      |a| == |b| && forall i :: 0 <= i < |a| ==> multiset(a[i]) == multiset(b[i])
  {
  }

  /** Where a listed entry's link sits: in the group of its category, and in no other group. */
  lemma ListedEntryPlaced(entries: seq<WikiEntry>, e: WikiEntry)
    requires e in entries && Listed(e)
    ensures var r := WikiNavigation(entries);
            && (exists i :: 0 <= i < |r| && r[i].category == e.navigation.category && LinkOf(e) in r[i].links)
            && (forall i :: 0 <= i < |r| && LinkOf(e) in r[i].links ==> r[i].category == e.navigation.category)
  {
    var r := WikiNavigation(entries);
    var cs := NavCategories(NavLinks(entries));
    var k :| 0 <= k < |entries| && entries[k] == e;
    assert LinkOf(e) in NavLinks(entries);
    NavCategoriesSorted(entries);
    assert Listed(entries[k]) && entries[k].navigation.category == e.navigation.category;
    assert e.navigation.category in cs;
    var i :| 0 <= i < |cs| && cs[i] == e.navigation.category;
    NavigationGroups(entries, i);
    forall j | 0 <= j < |r| && LinkOf(e) in r[j].links
      ensures r[j].category == e.navigation.category
    {
      NavigationGroups(entries, j);
    }
  }

  /** No two distinct pages share a URL when categories have no `/`. */
  lemma PageUrlInjective(c: string, s: string, c': string, s': string)
    requires '/' !in c && '/' !in c'
    requires PageUrl(c, s) == PageUrl(c', s')
    ensures c == c' && s == s'
  {
    var u := PageUrl(c, s);
    assert u[6..] == c + "/" + s && u[6..] == c' + "/" + s';
    SplitAtFirst(c, s, c', s');
  }

  /** Viewing an entry's page highlights exactly the links to that category and slug. */
  lemma CurrentLink(e: WikiEntry, l: NavLink)
    requires '/' !in e.navigation.category && '/' !in l.category
    ensures IsCurrent(PageUrl(e.navigation.category, e.id), l) <==> l.category == e.navigation.category && l.slug == e.id
  {
    if IsCurrent(PageUrl(e.navigation.category, e.id), l) {
      PageUrlInjective(e.navigation.category, e.id, l.category, l.slug);
    }
  }

  /** Every navigation link leads to a generated page. */
  lemma LinksHavePages(entries: seq<WikiEntry>, l: NavLink)
    requires l in NavLinks(entries)
    ensures exists i :: 0 <= i < |Pages(entries)| && Pages(entries)[i] == WikiParams(l.category, l.slug)
  {
    var i :| 0 <= i < |entries| && Listed(entries[i]) && LinkOf(entries[i]) == l;
    assert Pages(entries)[i] == WikiParams(l.category, l.slug);
  }

  /** A hidden entry still has its page, though no link of its own. */
  lemma HiddenEntryHasPage(entries: seq<WikiEntry>, i: int)
    requires 0 <= i < |entries| && !Listed(entries[i])
    ensures Pages(entries)[i] == WikiParams(entries[i].navigation.category, entries[i].id)
    ensures (forall j :: 0 <= j < |entries| && Listed(entries[j]) ==> LinkOf(entries[j]) != LinkOf(entries[i])) ==>
              LinkOf(entries[i]) !in NavLinks(entries)
  {
  }
}
