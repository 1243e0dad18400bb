/**
 * The back office's list pages and sidebar: how a content source's entries are ordered
 * and grouped under category headings, how a category name becomes a heading, how an
 * entry's frontmatter is cut off before editing, and how the sidebar splits the content
 * sources into plain and catalogue links.
 */
module BackOffice {
  import opened Wrappers
  import opened Text
  import opened Seqs
  import opened Ordering
  import Calendar
  import Blog

  // ---------------------------------------------------------------- headings

  function CapitalizeWords(ws: seq<string>): (r: seq<string>)
    ensures |r| == |ws|
    ensures forall i :: 0 <= i < |ws| ==> r[i] == CapitalizeFirst(ws[i])
  {
    seq(|ws|, i requires 0 <= i < |ws| => CapitalizeFirst(ws[i]))
  }

  /** The words of a category slug once dashes are spaces, each capitalised. */
  function HeadingWords(category: string): seq<string>
  {
    CapitalizeWords(SplitWhitespace(ReplaceChars(category, {'-'}, ' ')))
  }

  /** A category slug as a heading: dashes become spaces, every word is capitalised, single spaces between words. */
  function FormatCategoryName(category: string): string
  {
    Join(HeadingWords(category), " ")
  }

  /** A heading word: non-empty, no whitespace, no dash, and not starting with a lower-case letter. */
  predicate HeadingWord(w: string)
  {
    |w| > 0 && NoSpace(w) && '-' !in w && !('a' <= w[0] <= 'z')
  }

  lemma CapitalizeWord(w: string)
    requires |w| > 0 && NoSpace(w) && '-' !in w
    ensures HeadingWord(CapitalizeFirst(w))
  {
    var r := CapitalizeFirst(w);
    assert r == [UpperChar(w[0])] + w[1..];
    assert !IsSpace(w[0]);
    forall i | 1 <= i < |r|
      ensures !IsSpace(r[i]) && r[i] != '-'
    {
      assert r[i] == w[i];
    }
  }

  lemma HeadingWordsAreWords(c: string)
    ensures forall i :: 0 <= i < |HeadingWords(c)| ==> HeadingWord(HeadingWords(c)[i])
  {
    var s := ReplaceChars(c, {'-'}, ' ');
    var ws := SplitWhitespace(s);
    SplitWhitespaceWords(s);
    SplitWhitespaceAvoids(s, '-');
    forall i | 0 <= i < |ws|
      ensures HeadingWord(CapitalizeFirst(ws[i]))
    {
      CapitalizeWord(ws[i]);
    }
  }

  /**
   * The heading is its words joined by single spaces: splitting it on whitespace gives the
   * capitalised words of the name back, none empty, and no dash survives anywhere.
   */
  lemma FormatCategoryNameWords(c: string)
    ensures SplitWhitespace(FormatCategoryName(c)) == HeadingWords(c)
    ensures forall i :: 0 <= i < |HeadingWords(c)| ==> HeadingWord(HeadingWords(c)[i])
    ensures '-' !in FormatCategoryName(c)
  {
    var ws := HeadingWords(c);
    HeadingWordsAreWords(c);
    forall i | 0 <= i < |ws|
      ensures |ws[i]| > 0 && NoSpace(ws[i]) && '-' !in ws[i]
    {
      assert HeadingWord(ws[i]);
    }
    SplitWhitespaceOfJoin(ws);
    JoinAvoids(ws, " ", '-');
  }

  /** A heading is already formatted. */
  lemma FormatCategoryNameIdempotent(c: string)
    ensures FormatCategoryName(FormatCategoryName(c)) == FormatCategoryName(c)
  {
    var h := FormatCategoryName(c);
    var ws := HeadingWords(c);
    FormatCategoryNameWords(c);
    ReplaceCharsAbsent(h, {'-'}, ' ');
    assert CapitalizeWords(ws) == ws by {
      forall i | 0 <= i < |ws|
        ensures CapitalizeFirst(ws[i]) == ws[i]
      {
        assert HeadingWord(ws[i]);
        assert ws[i] == [ws[i][0]] + ws[i][1..];
      }
    }
    assert HeadingWords(h) == ws;
  }

  // ---------------------------------------------------------------- ordering

  /** What the list shows of one entry; blog entries have a date, wiki entries a category. */
  datatype Entry = Entry(id: string, title: string, date: Option<string>, category: Option<string>)

  /**
   * The list's comparator as "`a` may come before `b`": dated first, date texts in descending
   * string order, undated by title. The date texts are compared as strings, not as dates.
   */
  predicate EntryBefore(a: Entry, b: Entry)
  {
    match (a.date, b.date)
    case (Some(x), Some(y)) => StrLe(y, x)
    case (None, None) => StrLe(a.title, b.title)
    case (Some(_), None) => true
    case (None, Some(_)) => false
  }

  function EntryKey(e: Entry): seq<int>
  {
    match e.date
    case Some(d) => [0] + StrKeyDesc(d)
    case None => [1] + StrKey(e.title)
  }

  /** The sort key orders entries exactly as the comparator does. */
  lemma EntryKeyOrder(a: Entry, b: Entry)
    ensures LexLe(EntryKey(a), EntryKey(b)) <==> EntryBefore(a, b)
  {
    match (a.date, b.date)
    case (Some(x), Some(y)) =>
      LexLeSharedPrefix([0], StrKeyDesc(x), StrKeyDesc(y));
      StrKeyDescReverses(x, y);
    case (None, None) =>
      LexLeSharedPrefix([1], StrKey(a.title), StrKey(b.title));
    case (Some(x), None) =>
      assert EntryKey(a)[0] == 0 && EntryKey(b)[0] == 1;
    case (None, Some(y)) =>
      assert EntryKey(a)[0] == 1 && EntryKey(b)[0] == 0;
  }

  /** The stable sort of the list page. */
  function SortEntries(es: seq<Entry>): (r: seq<Entry>)
    ensures multiset(r) == multiset(es)
  {
    SortBy(es, EntryKey)
  }

  /**
   * The sorted list is a rearrangement in comparator order, and entries the comparator
   * cannot tell apart keep their input order.
   */
  lemma SortEntriesOrder(es: seq<Entry>, k: seq<int>)
    ensures var r := SortEntries(es);
            && (forall i, j :: 0 <= i < j < |r| ==> EntryBefore(r[i], r[j]))
            && WithKey(r, EntryKey, k) == WithKey(es, EntryKey, k)
  {
    var r := SortEntries(es);
    forall i, j | 0 <= i < j < |r|
      ensures EntryBefore(r[i], r[j])
    {
      EntryKeyOrder(r[i], r[j]);
    }
    SortByStable(es, EntryKey, k);
  }

  // ---------------------------------------------------------------- blog dates

  /** chrono's `%B`: the full English name of month `m`. */
  function MonthName(m: int): (r: string)
    requires 1 <= m <= 12
    ensures |r| >= 3
  {
    if m == 1 then "January" else if m == 2 then "February" else if m == 3 then "March"
    else if m == 4 then "April" else if m == 5 then "May" else if m == 6 then "June"
    else if m == 7 then "July" else if m == 8 then "August" else if m == 9 then "September"
    else if m == 10 then "October" else if m == 11 then "November" else "December"
  }

  /** `n` in decimal, zero-padded on the left to `width` digits. */
  function ZeroPadded(n: nat, width: nat): (r: string)
    ensures |r| >= width
  {
    var digits := NatToString(n);
    if |digits| >= width then digits else seq(width - |digits|, _ => '0') + digits
  }

  /** chrono's `%Y`: four digits at least, with a sign outside the years 0 to 9999. */
  function YearText(y: int): string
  {
    if y < 0 then "-" + ZeroPadded(-y, 4)
    else if y > 9999 then "+" + NatToString(y)
    else ZeroPadded(y, 4)
  }

  /** chrono's `%B %d, %Y`: the full month name, the two-digit day and the year. */
  function DateText(d: Calendar.ValidDate): (r: string)
    ensures |MonthName(d.month)| < |r| && r[..|MonthName(d.month)|] == MonthName(d.month)
  {
    MonthName(d.month) + " " + ZeroPadded(d.day, 2) + ", " + YearText(d.year)
  }

  /** What the blog source's list page is given per post. */
  datatype BlogPost = BlogPost(id: string, title: string, date: Calendar.ValidDate)

  /** A blog post on the list page: its date written out as text, no category. */
  function ListEntryOf(p: BlogPost): (e: Entry)
    ensures e.id == p.id && e.title == p.title && e.category == None
    ensures e.date.Some? && |e.date.value| > 0 && e.date.value[0] == MonthName(p.date.month)[0]
  {
    Entry(p.id, p.title, Some(DateText(p.date)), None)
  }

  function ListEntries(ps: seq<BlogPost>): (r: seq<Entry>)
    ensures |r| == |ps|
    ensures forall i :: 0 <= i < |ps| ==> r[i] == ListEntryOf(ps[i])
  {
    seq(|ps|, i requires 0 <= i < |ps| => ListEntryOf(ps[i]))
  }

  /**
   * As written, the month name decides between two posts of different initials, whatever
   * the years: the post whose month name starts with the later letter is listed first.
   */
  lemma MonthNameDecides(p: BlogPost, q: BlogPost)
    requires MonthName(q.date.month)[0] < MonthName(p.date.month)[0]
    ensures EntryBefore(ListEntryOf(p), ListEntryOf(q)) && !EntryBefore(ListEntryOf(q), ListEntryOf(p))
  {
    var tp, tq := ListEntryOf(p).date.value, ListEntryOf(q).date.value;
    assert StrKey(tq)[0] < StrKey(tp)[0];
  }

  /** Two different values in some order. */
  lemma TwoElements<T>(r: seq<T>, a: T, b: T)
    requires multiset(r) == multiset{a, b} && a != b
    ensures r == [a, b] || r == [b, a]
  {
    assert |r| == |multiset(r)| == 2;
    assert r == [r[0]] + [r[1]];
    assert multiset(r) == multiset{r[0], r[1]};
  }

  /**
   * As written, a post of December is listed above one of April of a later year, although
   * the list is meant to show the newest first: "December 01, 2020" above "April 01, 2024".
   */
  lemma ListPutsOlderFirst(older: BlogPost, newer: BlogPost)
    requires older.date.month == 12 && newer.date.month == 4 && older.date.year < newer.date.year
    ensures Blog.DateLe(older.date, newer.date) && older.date != newer.date
    ensures SortEntries(ListEntries([newer, older])) == [ListEntryOf(older), ListEntryOf(newer)]
  {
    var eo, en := ListEntryOf(older), ListEntryOf(newer);
    assert MonthName(4)[0] == 'A' && MonthName(12)[0] == 'D';
    MonthNameDecides(older, newer);
    ListEntriesTwo(newer, older);
    SortSwapsTwo(en, eo);
  }

  /** The list sort swaps two entries exactly when the second must come first. */
  lemma SortSwapsTwo(a: Entry, b: Entry)
    requires EntryBefore(b, a) && !EntryBefore(a, b)
    ensures SortEntries([a, b]) == [b, a]
  {
    var r := SortEntries([a, b]);
    SortEntriesOrder([a, b], []);
    TwoElements(r, a, b);
    assert EntryBefore(r[0], r[1]);
  }

  /** The comparator the list means: posts by their parsed date, newest first. */
  predicate PostBefore(a: BlogPost, b: BlogPost)
  {
    Blog.DateLe(b.date, a.date)
  }

  function PostKey(p: BlogPost): seq<int>
  {
    Blog.DateDescKey(p.date)
  }

  /** The post key orders posts exactly as the corrected comparator does. */
  lemma PostKeyOrder(a: BlogPost, b: BlogPost)
    ensures LexLe(PostKey(a), PostKey(b)) <==> PostBefore(a, b)
  {
    Blog.DateDescKeyOrder(a.date, b.date);
  }

  /**
   * The corrected list order: the posts sorted on their dates before these are written
   * out, newest first, posts of the same date in their input order.
   */
  function SortPostsByDate(ps: seq<BlogPost>): (r: seq<BlogPost>)
    ensures multiset(r) == multiset(ps)
    ensures forall i, j :: 0 <= i < j < |r| ==> PostBefore(r[i], r[j])
    ensures forall k :: WithKey(r, PostKey, k) == WithKey(ps, PostKey, k)
  {
    var r := SortBy(ps, PostKey);
    forall i, j | 0 <= i < j < |r|
      ensures PostBefore(r[i], r[j])
    {
      PostKeyOrder(r[i], r[j]);
    }
    forall k
      ensures WithKey(r, PostKey, k) == WithKey(ps, PostKey, k)
    {
      SortByStable(ps, PostKey, k);
    }
    r
  }

  /** The corrected sort swaps two posts exactly when the second is newer. */
  lemma SortPostsSwapsTwo(a: BlogPost, b: BlogPost)
    requires PostBefore(b, a) && !PostBefore(a, b)
    ensures SortPostsByDate([a, b]) == [b, a]
  {
    var r := SortPostsByDate([a, b]);
    TwoElements(r, a, b);
    assert PostBefore(r[0], r[1]);
  }

  /** Corrected, a post is listed above every older one, whatever the month names. */
  lemma SortPostsByDateNewestFirst(older: BlogPost, newer: BlogPost)
    requires Blog.DateLe(older.date, newer.date) && older.date != newer.date
    ensures SortPostsByDate([older, newer]) == [newer, older]
    ensures ListEntries(SortPostsByDate([older, newer])) == [ListEntryOf(newer), ListEntryOf(older)]
  {
    SortPostsSwapsTwo(older, newer);
    ListEntriesTwo(newer, older);
  }

  lemma ListEntriesTwo(a: BlogPost, b: BlogPost)
    ensures ListEntries([a, b]) == [ListEntryOf(a), ListEntryOf(b)]
  {
  }

  // ---------------------------------------------------------------- grouping

  function CategoryOf(e: Entry): Option<string>
  {
    e.category
  }

  /** The category names carried by the entries, with repeats. */
  function Categories(es: seq<Entry>): (r: seq<string>)
    ensures forall c :: c in r <==> exists i :: 0 <= i < |es| && es[i].category == Some(c)
  {
    if |es| == 0 then []
    else
      var rest := Categories(es[1..]);
      assert forall i :: 1 <= i < |es| ==> es[i] == es[1..][i - 1];
      match es[0].category
      case Some(c) => [c] + rest
      case None => rest
  }

  /** Each distinct category once, in ascending name order. */
  function CategoryNames(es: seq<Entry>): seq<string>
  {
    SortBy(Dedup(Categories(es)), StrKey)
  }

  datatype Group = Group(heading: string, entries: seq<Entry>)

  /** The rendered list: a placeholder, or the uncategorized entries and then one group per category. */
  datatype Listing = NoEntries | Entries(uncategorized: seq<Entry>, groups: seq<Group>)

  function Somes(names: seq<string>): (r: seq<Option<string>>)
    ensures |r| == |names|
    ensures forall i :: 0 <= i < |names| ==> r[i] == Some(names[i])
  {
    seq(|names|, i requires 0 <= i < |names| => Some(names[i]))
  }

  function GroupEntries(gs: seq<Group>): (r: seq<seq<Entry>>)
    ensures |r| == |gs|
    ensures forall i :: 0 <= i < |gs| ==> r[i] == gs[i].entries
  {
    seq(|gs|, i requires 0 <= i < |gs| => gs[i].entries)
  }

  function RenderEntries(es: seq<Entry>): (r: Listing)
    ensures r.NoEntries? <==> |es| == 0
  {
    if |es| == 0 then NoEntries
    else
      var sorted := SortEntries(es);
      var names := CategoryNames(sorted);
      Entries(
        WithKey(sorted, CategoryOf, None),
        seq(|names|, i requires 0 <= i < |names| =>
          Group(FormatCategoryName(names[i]), WithKey(sorted, CategoryOf, Some(names[i])))))
  }

  /** The category names are strictly ascending and are exactly the categories of the entries. */
  lemma CategoryNamesSorted(es: seq<Entry>)
    ensures var names := CategoryNames(es);
            && NoDup(names)
            && (forall i, j :: 0 <= i < j < |names| ==> StrLe(names[i], names[j]) && names[i] != names[j])
            && (forall c :: c in names <==> exists i :: 0 <= i < |es| && es[i].category == Some(c))
  {
    var d := Dedup(Categories(es));
    var names := CategoryNames(es);
    NoDupPermutation(d, names);
    forall c
      ensures c in names <==> c in d
    {
      assert c in names <==> c in multiset(names);
    }
  }

  /** Every entry of a category lies in its group, and every group is non-empty. */
  lemma GroupsCover(es: seq<Entry>)
    requires |es| > 0
    ensures var r := RenderEntries(es);
            && (forall x :: x in es && x.category.None? ==> x in r.uncategorized)
            && (forall i :: 0 <= i < |r.groups| ==> |r.groups[i].entries| > 0)
  {
    var sorted := SortEntries(es);
    var names := CategoryNames(sorted);
    var r := RenderEntries(es);
    forall x | x in es && x.category.None?
      ensures x in r.uncategorized
    {
      assert x in multiset(sorted);
      WithKeyMembers(sorted, CategoryOf, None, x);
    }
    forall i | 0 <= i < |r.groups|
      ensures |r.groups[i].entries| > 0
    {
      CategoryNamesSorted(sorted);
      assert names[i] in names;
      var j :| 0 <= j < |sorted| && sorted[j].category == Some(names[i]);
      WithKeyMembers(sorted, CategoryOf, Some(names[i]), sorted[j]);
    }
  }

  /** The group keys: no category first, then each name once. */
  lemma GroupKeysDistinct(names: seq<string>)
    requires NoDup(names)
    ensures NoDup([None] + Somes(names))
  {
    var ks := [None] + Somes(names);
    forall i, j | 0 <= i < j < |ks|
      ensures ks[i] != ks[j]
    {
      if i > 0 {
        assert ks[i] == Some(names[i - 1]) && ks[j] == Some(names[j - 1]);
      }
    }
  }

  lemma GroupKeysCover(sorted: seq<Entry>)
    ensures forall x :: x in sorted ==> CategoryOf(x) in [None] + Somes(CategoryNames(sorted))
  {
    var names := CategoryNames(sorted);
    var ks := [None] + Somes(names);
    CategoryNamesSorted(sorted);
    forall x | x in sorted
      ensures CategoryOf(x) in ks
    {
      if x.category.Some? {
        var j :| 0 <= j < |sorted| && sorted[j] == x;
        assert x.category.value in names;
        var m :| 0 <= m < |names| && names[m] == x.category.value;
        assert ks[m + 1] == x.category;
      }
    }
  }

  /** The listing's entry lists are the grouping of the sorted entries under the group keys. */
  lemma ListingIsGrouping(es: seq<Entry>)
    requires |es| > 0
    ensures var r := RenderEntries(es);
            var sorted := SortEntries(es);
            [r.uncategorized] + GroupEntries(r.groups) == GroupsBy(sorted, CategoryOf, [None] + Somes(CategoryNames(sorted)))
  {
  }

  lemma FlattenCons<T>(head: seq<T>, tail: seq<seq<T>>)
    ensures Flatten([head] + tail) == head + Flatten(tail)
  {
    assert ([head] + tail)[1..] == tail;
  }

  /**
   * The listing is a partition of the input: the uncategorized entries followed by the
   * groups' entries hold every entry exactly as often as the input does.
   */
  lemma RenderEntriesPartition(es: seq<Entry>)
    requires |es| > 0
    ensures var r := RenderEntries(es);
            multiset(r.uncategorized + Flatten(GroupEntries(r.groups))) == multiset(es)
  {
    var sorted := SortEntries(es);
    var names := CategoryNames(sorted);
    var r := RenderEntries(es);
    var ks := [None] + Somes(names);
    CategoryNamesSorted(sorted);
    GroupKeysDistinct(names);
    GroupKeysCover(sorted);
    GroupsPartition(sorted, CategoryOf, ks);
    ListingIsGrouping(es);
    FlattenCons(r.uncategorized, GroupEntries(r.groups));
  }

  /** Entries with one category, taken from the sorted list: exactly those of the input, in comparator order. */
  lemma CategoryGroup(es: seq<Entry>, c: Option<string>)
    ensures var g := WithKey(SortEntries(es), CategoryOf, c);
            && (forall x :: x in g <==> x in es && x.category == c)
            && (forall i, j :: 0 <= i < j < |g| ==> EntryBefore(g[i], g[j]))
  {
    var sorted := SortEntries(es);
    var g := WithKey(sorted, CategoryOf, c);
    forall x
      ensures x in g <==> x in es && x.category == c
    {
      assert x in sorted <==> x in multiset(sorted);
      WithKeyMembers(sorted, CategoryOf, c, x);
    }
    WithKeySorted(sorted, CategoryOf, c, EntryKey);
    forall i, j | 0 <= i < j < |g|
      ensures EntryBefore(g[i], g[j])
    {
      EntryKeyOrder(g[i], g[j]);
    }
  }

  /**
   * Uncategorized entries are the category-less ones in comparator order, and group `g`
   * holds exactly the entries of the `g`-th category in comparator order under its heading.
   */
  lemma RenderEntriesGroups(es: seq<Entry>)
    requires |es| > 0
    ensures var r := RenderEntries(es);
            var names := CategoryNames(SortEntries(es));
            && |r.groups| == |names|
            && (forall x :: x in r.uncategorized <==> x in es && x.category.None?)
            && (forall i, j :: 0 <= i < j < |r.uncategorized| ==> EntryBefore(r.uncategorized[i], r.uncategorized[j]))
            && (forall g :: 0 <= g < |names| ==>
                  && r.groups[g].heading == FormatCategoryName(names[g])
                  && (forall x :: x in r.groups[g].entries <==> x in es && x.category == Some(names[g]))
                  && (forall i, j :: 0 <= i < j < |r.groups[g].entries| ==>
                        EntryBefore(r.groups[g].entries[i], r.groups[g].entries[j])))
  {
    var names := CategoryNames(SortEntries(es));
    CategoryGroup(es, None);
    forall g | 0 <= g < |names|
      ensures var ge := WithKey(SortEntries(es), CategoryOf, Some(names[g]));
              && (forall x :: x in ge <==> x in es && x.category == Some(names[g]))
              && (forall i, j :: 0 <= i < j < |ge| ==> EntryBefore(ge[i], ge[j]))
    {
      CategoryGroup(es, Some(names[g]));
    }
  }

  // ---------------------------------------------------------------- frontmatter

  /** The content opens with "---" and holds another "---" after it. */
  predicate HasFrontmatter(content: string)
  {
    StartsWith(content, "---") && Contains(content[3..], "---")
  }

  /** `(frontmatter, body)`: text between a leading "---" and the next "---", and what follows; otherwise no frontmatter. */
  function SplitFrontmatter(content: string): (r: (string, string))
    ensures HasFrontmatter(content) ==> content == "---" + r.0 + "---" + r.1 && !Contains(r.0, "---")
    ensures !HasFrontmatter(content) ==> r == ("", content)
  {
    match StripPrefix(content, "---")
    case None => ("", content)
    case Some(rest) =>
      assert rest == content[3..];
      match IndexOf(rest, "---")
      case None => ("", content)
      case Some(end) =>
        NoOccurrenceBeforeFirst(rest, "---", end);
        Reassemble(content, rest, end);
        (rest[..end], rest[end + 3..])
  }

  lemma Reassemble(content: string, rest: string, end: nat)
    requires "---" + rest == content && OccursAt(rest, "---", end)
    ensures content == "---" + rest[..end] + "---" + rest[end + 3..]
  {
    assert rest == rest[..end] + rest[end..end + 3] + rest[end + 3..];
  }

  /**
   * An entry written with frontmatter that holds no marker and does not end in a dash is
   * split back into that frontmatter and body.
   */
  lemma FrontmatterRoundTrip(fm: string, body: string)
    requires !Contains(fm, "---")
    requires |fm| == 0 || fm[|fm| - 1] != '-'
    ensures SplitFrontmatter("---" + fm + "---" + body) == (fm, body)
  {
    var content := "---" + fm + "---" + body;
    var rest := content[3..];
    assert rest == fm + "---" + body;
    assert OccursAt(rest, "---", |fm|);
    forall k: nat | k < |fm|
      ensures !OccursAt(rest, "---", k)
    {
      if k + 3 <= |fm| {
        assert fm[k..k + 3] == rest[k..k + 3];
        assert !OccursAt(fm, "---", k);
      } else {
        assert rest[|fm| - 1] == fm[|fm| - 1];
        assert rest[k..k + 3][|fm| - 1 - k] == rest[|fm| - 1];
      }
    }
    IndexOfAt(rest, "---", |fm|);
    assert rest[..|fm|] == fm && rest[|fm| + 3..] == body;
  }

  // ---------------------------------------------------------------- sidebar

  const CatalogueSources: seq<string> := ["books", "movies", "shows", "games"]

  function IsCatalogueSource(name: string): bool
  {
    name in CatalogueSources
  }

  function IsPlainSource(name: string): bool
  {
    name !in CatalogueSources
  }

  datatype Link = Link(href: string, text: string)

  /** The sidebar: plain links, the catalogue section when there is one, and the account link. */
  datatype Sidebar = Sidebar(plain: seq<Link>, catalogue: Option<CatalogueSection>, account: Link)

  /** The "Catalogue" header with its add button, then one link per catalogue source. */
  datatype CatalogueSection = CatalogueSection(addHref: string, links: seq<Link>)

  function Links(names: seq<string>, prefix: string): (r: seq<Link>)
    ensures |r| == |names|
    ensures forall i :: 0 <= i < |names| ==> r[i] == Link(prefix + names[i], CapitalizeFirst(names[i]))
  {
    seq(|names|, i requires 0 <= i < |names| => Link(prefix + names[i], CapitalizeFirst(names[i])))
  }

  function RenderSidebar(sources: seq<string>, authenticated: bool): (r: Sidebar)
    ensures r.account == (if authenticated then Link("/logout", "Sign out") else Link("/login", "Login"))
  {
    var catalogue := Filter(sources, IsCatalogueSource);
    var plain := Filter(sources, IsPlainSource);
    Sidebar(
      Links(plain, "/"),
      if |catalogue| == 0 then None else Some(CatalogueSection("/catalogue/add", Links(catalogue, "/catalogue/"))),
      if authenticated then Link("/logout", "Sign out") else Link("/login", "Login"))
  }

  /** The two sides of the split, together, are the sources: each lands on exactly one side. */
  lemma SourcePartition(sources: seq<string>)
    ensures multiset(Filter(sources, IsCatalogueSource)) + multiset(Filter(sources, IsPlainSource)) == multiset(sources)
  {
    FilterComplement(sources, IsCatalogueSource, IsPlainSource);
  }

  lemma KeptSourceLinked(sources: seq<string>, p: string -> bool, prefix: string, i: int)
    requires 0 <= i < |sources| && p(sources[i])
    ensures Link(prefix + sources[i], CapitalizeFirst(sources[i])) in Links(Filter(sources, p), prefix)
  {
    var kept := Filter(sources, p);
    assert sources[i] in kept;
    var k :| 0 <= k < |kept| && kept[k] == sources[i];
    assert Links(kept, prefix)[k] == Link(prefix + sources[i], CapitalizeFirst(sources[i]));
  }

  lemma LinkOfKeptSource(sources: seq<string>, p: string -> bool, prefix: string, k: int)
    requires 0 <= k < |Filter(sources, p)|
    ensures var name := Filter(sources, p)[k];
            && name in sources && p(name)
            && Links(Filter(sources, p), prefix)[k] == Link(prefix + name, CapitalizeFirst(name))
  {
    var kept := Filter(sources, p);
    assert kept[k] in kept;
  }

  /** The links of the sources a predicate keeps: one per kept source, under the prefix, labelled with the capitalised name. */
  lemma LinksOfFilter(sources: seq<string>, p: string -> bool, prefix: string, l: Link)
    ensures l in Links(Filter(sources, p), prefix) <==>
              exists i :: 0 <= i < |sources| && p(sources[i]) && l == Link(prefix + sources[i], CapitalizeFirst(sources[i]))
  {
    var links := Links(Filter(sources, p), prefix);
    if l in links {
      var k :| 0 <= k < |links| && links[k] == l;
      LinkOfKeptSource(sources, p, prefix, k);
      var i :| 0 <= i < |sources| && sources[i] == Filter(sources, p)[k];
    }
    if exists i :: 0 <= i < |sources| && p(sources[i]) && l == Link(prefix + sources[i], CapitalizeFirst(sources[i])) {
      var i :| 0 <= i < |sources| && p(sources[i]) && l == Link(prefix + sources[i], CapitalizeFirst(sources[i]));
      KeptSourceLinked(sources, p, prefix, i);
    }
  }

  /**
   * Plain sources link to `/{name}` and catalogue sources to `/catalogue/{name}`, each
   * labelled with its capitalised name, and the catalogue section exists exactly when some
   * source is a catalogue one.
   */
  lemma SidebarLinks(sources: seq<string>, authenticated: bool)
    ensures var r := RenderSidebar(sources, authenticated);
            && (r.catalogue.Some? <==> exists i :: 0 <= i < |sources| && sources[i] in CatalogueSources)
            && (forall l :: l in r.plain <==> exists i :: 0 <= i < |sources| && sources[i] !in CatalogueSources
                                                 && l == Link("/" + sources[i], CapitalizeFirst(sources[i])))
            && (r.catalogue.Some? ==> forall l :: l in r.catalogue.value.links <==>
                  exists i :: 0 <= i < |sources| && sources[i] in CatalogueSources
                              && l == Link("/catalogue/" + sources[i], CapitalizeFirst(sources[i])))
  {
    var r := RenderSidebar(sources, authenticated);
    SidebarSection(sources);
    forall l
      ensures l in r.plain <==> exists i :: 0 <= i < |sources| && sources[i] !in CatalogueSources
                                         && l == Link("/" + sources[i], CapitalizeFirst(sources[i]))
    {
      SidebarPlain(sources, authenticated, l);
    }
    if r.catalogue.Some? {
      forall l
        ensures l in r.catalogue.value.links <==>
                  exists i :: 0 <= i < |sources| && sources[i] in CatalogueSources
                              && l == Link("/catalogue/" + sources[i], CapitalizeFirst(sources[i]))
      {
        SidebarCatalogue(sources, authenticated, l);
      }
    }
  }

  lemma SidebarPlain(sources: seq<string>, authenticated: bool, l: Link)
    ensures l in RenderSidebar(sources, authenticated).plain <==>
              exists i :: 0 <= i < |sources| && sources[i] !in CatalogueSources
                          && l == Link("/" + sources[i], CapitalizeFirst(sources[i]))
  {
    assert RenderSidebar(sources, authenticated).plain == Links(Filter(sources, IsPlainSource), "/");
    LinksOfFilter(sources, IsPlainSource, "/", l);
  }

  lemma SidebarCatalogue(sources: seq<string>, authenticated: bool, l: Link)
    requires RenderSidebar(sources, authenticated).catalogue.Some?
    ensures l in RenderSidebar(sources, authenticated).catalogue.value.links <==>
              exists i :: 0 <= i < |sources| && sources[i] in CatalogueSources
                          && l == Link("/catalogue/" + sources[i], CapitalizeFirst(sources[i]))
  {
    assert RenderSidebar(sources, authenticated).catalogue.value.links == Links(Filter(sources, IsCatalogueSource), "/catalogue/");
    LinksOfFilter(sources, IsCatalogueSource, "/catalogue/", l);
  }

  /** Some source is kept as a catalogue source exactly when some source is a catalogue one. */
  lemma SidebarSection(sources: seq<string>)
    ensures |Filter(sources, IsCatalogueSource)| > 0 <==> exists i :: 0 <= i < |sources| && sources[i] in CatalogueSources
  {
    var catalogue := Filter(sources, IsCatalogueSource);
    if exists i :: 0 <= i < |sources| && sources[i] in CatalogueSources {
      var i :| 0 <= i < |sources| && sources[i] in CatalogueSources;
      assert sources[i] in catalogue;
    }
    if |catalogue| > 0 {
      assert catalogue[0] in catalogue;
    }
  }
}
