/**
 * The Astro site's entry helpers: the URL of a blog, wiki or project entry, the site's
 * base URL, the newest-first comparator of blog posts, the draft filter of production
 * builds and the random pick of an array entry.
 */
module EntryUrls {
  import opened Wrappers
  import opened Ordering
  import WikiNav

  /** A collection entry: its id, its `data.type`, and the fields the URL reads. */
  datatype CollectionEntry = CollectionEntry(id: string, dataType: string, category: string, projectType: string)

  /** `getURLFromEntry`. */
  function UrlFromEntry(item: CollectionEntry): (r: string)
    ensures item.dataType == "blog" ==> r == "/articles/" + item.id + "#title"
    ensures item.dataType == "wiki" ==> r == WikiNav.PageUrl(item.category, item.id)
    ensures item.dataType == "project" ==> r == "/projects/" + item.projectType + "/" + item.id
    ensures item.dataType !in {"blog", "wiki", "project"} ==> r == "ERROR!"
  {
    if item.dataType == "blog" then "/articles/" + item.id + "#title"
    else if item.dataType == "wiki" then "/wiki/" + item.category + "/" + item.id
    else if item.dataType == "project" then "/projects/" + item.projectType + "/" + item.id
    else "ERROR!"
  }

  /** `getBaseSiteURL`. */
  function BaseSiteUrl(prod: bool): string
  {
    if prod then "https://erika.florist/" else "http://localhost:27969/"
  }

  /** A blog entry as the comparator and the filter see it: `draft` and the date's `getTime()`. */
  datatype BlogEntry = BlogEntry(id: string, draft: Option<bool>, time: int)

  /** `blogDateSort`: negative when `a` is newer, so newer entries sort first. */
  function BlogDateSort(a: BlogEntry, b: BlogEntry): int
  {
    b.time - a.time
  }

  /** The key `Array.prototype.sort` with `blogDateSort` sorts by. */
  function BlogTimeKey(e: BlogEntry): seq<int>
  {
    [-e.time]
  }

  /** `blogFilter`: everything in development, only entries not marked draft in production. */
  predicate BlogFilter(dev: bool, e: BlogEntry)
  {
    dev || e.draft != Some(true)
  }

  /** `randomArrayEntry` with `Math.random()` as `u`: the entry at `floor(u * length)`, `undefined` for an empty array. */
  function RandomEntry<T>(entries: seq<T>, u: real): (r: Option<T>)
    requires 0.0 <= u < 1.0
    ensures |entries| == 0 <==> r.None?
    ensures r.Some? ==> r.value in entries
  {
    if |entries| == 0 then None
    else
      var k := (u * |entries| as real).Floor;
      assert 0 <= k < |entries| by {
        assert 0.0 <= u * |entries| as real < |entries| as real;
      }
      Some(entries[k])
  }

  // ---------------------------------------------------------------- properties

  /** Entries of different types never share a URL, and a known type never yields the error marker. */
  lemma UrlPrefixes(item: CollectionEntry)
    ensures item.dataType == "blog" ==> UrlFromEntry(item)[..10] == "/articles/"
    ensures item.dataType == "wiki" ==> UrlFromEntry(item)[..6] == "/wiki/"
    ensures item.dataType == "project" ==> UrlFromEntry(item)[..10] == "/projects/"
    ensures item.dataType in {"blog", "wiki", "project"} ==> UrlFromEntry(item) != "ERROR!"
  {
    var r := UrlFromEntry(item);
    if item.dataType in {"blog", "wiki", "project"} {
      assert r[0] == '/';
    }
  }

  /** Two wiki entries share a URL only when they are the same page, for categories without `/`. */
  lemma WikiUrlInjective(a: CollectionEntry, b: CollectionEntry)
    requires a.dataType == "wiki" && b.dataType == "wiki"
    requires '/' !in a.category && '/' !in b.category
    ensures UrlFromEntry(a) == UrlFromEntry(b) <==> a.category == b.category && a.id == b.id
  {
    if UrlFromEntry(a) == UrlFromEntry(b) {
      WikiNav.PageUrlInjective(a.category, a.id, b.category, b.id);
    }
  }

  /** The comparator and the key agree: `a` may precede `b` exactly when the comparator is not positive. */
  lemma BlogDateSortKey(a: BlogEntry, b: BlogEntry)
    ensures BlogDateSort(a, b) <= 0 <==> LexLe(BlogTimeKey(a), BlogTimeKey(b))
    ensures BlogDateSort(a, b) == 0 <==> BlogTimeKey(a) == BlogTimeKey(b)
  {
    assert BlogTimeKey(a)[1..] == [] && BlogTimeKey(b)[1..] == [];
  }

  /** In production the filter drops exactly the drafts; in development it drops nothing. */
  lemma BlogFilterModes(e: BlogEntry)
    ensures BlogFilter(true, e)
    ensures !BlogFilter(false, e) <==> e.draft == Some(true)
  {
  }
}
