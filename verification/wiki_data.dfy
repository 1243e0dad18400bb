/**
 * The older wiki's item list, read from the Markdown files of the wiki directory: every
 * file with navigation settings becomes an item whose slug is the file name without its
 * extension and whose link is `/wiki/{category}/{slug}` on the development origin. Items
 * are looked up by slug, listed per category (hidden ones left out) and turned into the
 * static page parameters (hidden ones kept).
 */
module WikiData {
  import opened Wrappers
  import opened Seqs
  import opened Paths
  import opened WikiNav

  /** The origin the links are resolved against. */
  const Origin: string := "http://localhost:3000"

  /** A crawled Markdown file: its path, title and navigation settings, if any. */
  datatype WikiFile = WikiFile(path: string, title: string, navigation: Option<Navigation>)

  datatype WikiItem = WikiItem(slug: string, link: string, title: string, navigation: Navigation)

  /** The item of a file, or none when the file has no navigation settings. */
  function ItemOf(f: WikiFile): (r: Option<WikiItem>)
    ensures r.Some? <==> f.navigation.Some?
    ensures r.Some? ==> (r.value.slug == FileStem(f.path) &&
                         r.value.link == Origin + PageUrl(f.navigation.value.category, r.value.slug))
  {
    if f.navigation.None? then None
    else
      var slug := FileStem(f.path);
      Some(WikiItem(slug, Origin + PageUrl(f.navigation.value.category, slug), f.title, f.navigation.value))
  }

  /** `wikiItems`: the items of the files that have navigation settings, in crawl order. */
  function WikiItems(files: seq<WikiFile>): (r: seq<WikiItem>)
    ensures |r| <= |files|
    ensures forall x :: x in r <==> exists i :: 0 <= i < |files| && files[i].navigation.Some? && ItemOf(files[i]) == Some(x)
    decreases |files|
  {
    if |files| == 0 then []
    else
      var rest := WikiItems(files[1..]);
      assert forall i :: 1 <= i < |files| ==> files[i] == files[1..][i - 1];
      if files[0].navigation.Some? then [ItemOf(files[0]).value] + rest else rest
  }

  /** `getWikiItem`: the first item with the slug, if any. */
  function GetWikiItem(items: seq<WikiItem>, slug: string): (r: Option<WikiItem>)
    ensures r.None? <==> forall i :: 0 <= i < |items| ==> items[i].slug != slug
    ensures r.Some? ==> exists i :: 0 <= i < |items| && items[i] == r.value && r.value.slug == slug &&
                          forall j :: 0 <= j < i ==> items[j].slug != slug
    decreases |items|
  {
    if |items| == 0 then None
    else if items[0].slug == slug then Some(items[0])
    else
      var r := GetWikiItem(items[1..], slug);
      assert forall i :: 1 <= i < |items| ==> items[i] == items[1..][i - 1];
      if r.Some? then
        var i :| 0 <= i < |items[1..]| && items[1..][i] == r.value && r.value.slug == slug &&
                 forall j :: 0 <= j < i ==> items[1..][j].slug != slug;
        assert items[i + 1] == r.value;
        r
      else r
  }

  /** Whether an item is shown under category `key`: `category === key && !hidden`. */
  predicate InCategory(key: string, item: WikiItem)
  {
    item.navigation.category == key && item.navigation.hidden != Some(true)
  }

  /** `getWikiItemsByCategory`: the shown items of one category, in order. */
  function ItemsByCategory(items: seq<WikiItem>, key: string): (r: seq<WikiItem>)
    ensures forall x :: x in r <==> x in items && InCategory(key, x)
    decreases |items|
  {
    if |items| == 0 then []
    else
      assert items == [items[0]] + items[1..];
      (if InCategory(key, items[0]) then [items[0]] else []) + ItemsByCategory(items[1..], key)
  }

  /** `getStaticListWikiItems`: the page parameters of every item, hidden ones included. */
  function StaticParams(items: seq<WikiItem>): (r: seq<WikiParams>)
    ensures |r| == |items|
  {
    seq(|items|, i requires 0 <= i < |items| => WikiParams(items[i].navigation.category, items[i].slug))
  }

  // ---------------------------------------------------------------- properties

  /** Each shown item is listed under its own category and under no other. */
  lemma ItemsByCategoryPartition(items: seq<WikiItem>, x: WikiItem, key: string)
    requires x in items && x.navigation.hidden != Some(true)
    ensures x in ItemsByCategory(items, x.navigation.category)
    ensures key != x.navigation.category ==> x !in ItemsByCategory(items, key)
  {
  }

  /** A hidden item is listed under no category, yet still gets its page. */
  lemma HiddenItem(items: seq<WikiItem>, i: int, key: string)
    requires 0 <= i < |items| && items[i].navigation.hidden == Some(true)
    ensures items[i] !in ItemsByCategory(items, key)
    ensures StaticParams(items)[i] == WikiParams(items[i].navigation.category, items[i].slug)
  {
  }

  /** Each item's link is the origin followed by the URL of the page its parameters generate. */
  lemma LinksMatchPages(files: seq<WikiFile>)
    ensures var items := WikiItems(files);
            forall i :: 0 <= i < |items| ==>
              items[i].link == Origin + PageUrl(StaticParams(items)[i].category, StaticParams(items)[i].slug)
  {
    var items := WikiItems(files);
    forall i | 0 <= i < |items|
      ensures items[i].link == Origin + PageUrl(items[i].navigation.category, items[i].slug)
    {
      assert items[i] in items;
    }
  }

  /** A file `dir/name.md` with navigation is found again under the slug `name`. */
  lemma FoundBySlug(files: seq<WikiFile>, k: int, dir: string, name: string)
    requires 0 <= k < |files| && files[k].navigation.Some?
    requires |name| > 0 && '/' !in name && files[k].path == dir + "/" + name + ".md"
    ensures GetWikiItem(WikiItems(files), name).Some?
  {
    assert files[k].path == dir + "/" + name + "." + "md";
    FileStemOf(dir, name, "md");
    var x := ItemOf(files[k]).value;
    assert x.slug == name;
    assert x in WikiItems(files);
    var i :| 0 <= i < |WikiItems(files)| && WikiItems(files)[i] == x;
    assert WikiItems(files)[i].slug == name;
  }
}
