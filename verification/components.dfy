/**
 * Small page components of the current site: the table of contents of an article, the
 * list of an article's tags, and the SVG icon reference.
 */
module Components {
  import opened Wrappers
  import opened Seqs
  import opened Text

  /** Rust's `u8` and `u32`. */
  type U8 = x: int | 0 <= x < 0x100
  type U32 = x: int | 0 <= x < 0x1_0000_0000

  // ---------------------------------------------------------------- table of contents

  datatype MarkdownHeading = MarkdownHeading(level: U8, id: string, title: string)

  /** A list item of the table of contents: its CSS class, its link and its text. */
  datatype TocItem = TocItem(cssClass: string, href: string, text: string)

  /** `max_depth.unwrap_or(3) as u8`: the cast keeps the low eight bits. */
  function TocDepth(maxDepth: Option<U32>): (d: U8)
    ensures maxDepth.None? ==> d == 3
    ensures maxDepth.Some? && maxDepth.value < 0x100 ==> d == maxDepth.value
  {
    (if maxDepth.Some? then maxDepth.value else 3) % 0x100
  }

  /** The filter of `table_of_content`, for a given depth. */
  function ShownAt(depth: int): MarkdownHeading -> bool
  {
    (h: MarkdownHeading) => 1 < h.level <= depth
  }

  /** The headings `table_of_content` lists, as written: the depth after the cast. */
  function TocHeadingsAsWritten(headings: seq<MarkdownHeading>, maxDepth: Option<U32>): (r: seq<MarkdownHeading>)
    ensures forall h :: h in r <==> h in headings && 1 < h.level <= TocDepth(maxDepth)
  {
    Filter(headings, ShownAt(TocDepth(maxDepth)))
  }

  /** The headings down to the requested depth, compared without the cast. */
  function TocHeadings(headings: seq<MarkdownHeading>, maxDepth: Option<U32>): (r: seq<MarkdownHeading>)
    ensures forall h :: h in r <==> h in headings && 1 < h.level && (maxDepth.None? ==> h.level <= 3) &&
                                     (maxDepth.Some? ==> h.level <= maxDepth.value)
  {
    Filter(headings, ShownAt(if maxDepth.Some? then maxDepth.value else 3))
  }

  function TocItemOf(h: MarkdownHeading): TocItem
  {
    TocItem("toc-depth-" + NatToString(h.level), "#" + h.id, h.title)
  }

  /** The list items, one per heading listed after the cast, in order. */
  function TocItems(headings: seq<MarkdownHeading>, maxDepth: Option<U32>): (r: seq<TocItem>)
    ensures |r| == |TocHeadingsAsWritten(headings, maxDepth)|
    ensures forall i :: 0 <= i < |r| ==> r[i] == TocItemOf(TocHeadingsAsWritten(headings, maxDepth)[i])
  {
    var hs := TocHeadingsAsWritten(headings, maxDepth);
    seq(|hs|, i requires 0 <= i < |hs| => TocItemOf(hs[i]))
  }

  // ---------------------------------------------------------------- tags

  /** The markup of `tags`: text runs and tag links, the link's colours chosen by `accent`. */
  datatype Fragment = Text(text: string) | TagLink(accent: bool, href: string, title: string, text: string)

  function TagLinkOf(tag: string, accent: bool): Fragment
  {
    TagLink(accent, "/articles/tags/" + tag, "See all articles tagged with \"" + tag + "\"", tag)
  }

  /** One link per tag, a `, ` after every tag but the last. */
  function TagParts(tags: seq<string>, accent: bool): (r: seq<Fragment>)
    ensures |tags| == 0 ==> r == []
    ensures |tags| > 0 ==> |r| == 2 * |tags| - 1
    decreases |tags|
  {
    if |tags| == 0 then []
    else [TagLinkOf(tags[0], accent)] + (if |tags| > 1 then [Text(", ")] else []) + TagParts(tags[1..], accent)
  }

  /** `tags(tag_list, accent_background)`. */
  function Tags(tags: seq<string>, accentBackground: Option<bool>): (r: seq<Fragment>)
    ensures |r| > 0 && r[0] == Text(" · ")
  {
    [Text(" · ")] + TagParts(tags, accentBackground == Some(true))
  }

  /** The texts of the tag links, in order. */
  function LinkTexts(fs: seq<Fragment>): seq<string>
    decreases |fs|
  {
    if |fs| == 0 then []
    else (if fs[0].TagLink? then [fs[0].text] else []) + LinkTexts(fs[1..])
  }

  // ---------------------------------------------------------------- icons

  /** `Icon`. */
  datatype Icon = Github | Mail | Bluesky | System | Menu | Moon | Sun | ArrowUp

  /** `Display for Icon`. */
  function IconName(i: Icon): string
  {
    match i
    case Github => "github"
    case Mail => "mail"
    case Bluesky => "bluesky"
    case System => "system"
    case Menu => "menu"
    case Moon => "moon"
    case Sun => "sun"
    case ArrowUp => "arrow-up"
  }

  /** The icon a displayed name stands for. */
  function ParseIcon(s: string): Option<Icon>
  {
    if s == "github" then Some(Github)
    else if s == "mail" then Some(Mail)
    else if s == "bluesky" then Some(Bluesky)
    else if s == "system" then Some(System)
    else if s == "menu" then Some(Menu)
    else if s == "moon" then Some(Moon)
    else if s == "sun" then Some(Sun)
    else if s == "arrow-up" then Some(ArrowUp)
    else None
  }

  /** The attributes of the `svg` element and its `use` reference. */
  datatype Svg = Svg(width: string, height: string, title: string, href: string)

  /** `icon(name, size, title)`, for the displayed name of the icon. */
  function SvgOf(name: string, size: nat, title: string): (r: Svg)
    ensures r.width == r.height
    ensures |r.width| > 2 && r.width[|r.width| - 2..] == "px"
    ensures |r.href| >= 6 && r.href[..6] == "#icon:" && r.href[6..] == name
  {
    var px := NatToString(size) + "px";
    assert px[|px| - 2..] == "px";
    Svg(px, px, title, "#icon:" + name)
  }

  function IconSvg(i: Icon, size: nat, title: string): Svg
  {
    SvgOf(IconName(i), size, title)
  }

  // ---------------------------------------------------------------- properties

  /** Without `max_depth` the contents list exactly the headings of levels 2 and 3, in either reading. */
  lemma TocDefault(headings: seq<MarkdownHeading>, h: MarkdownHeading)
    ensures h in TocHeadings(headings, None) <==> h in headings && (h.level == 2 || h.level == 3)
    ensures TocHeadingsAsWritten(headings, None) == TocHeadings(headings, None)
  {
  }

  /** The listed headings keep their order: listing a concatenation lists each part in turn. */
  lemma TocOrder(a: seq<MarkdownHeading>, b: seq<MarkdownHeading>, maxDepth: Option<U32>)
    ensures TocHeadings(a + b, maxDepth) == TocHeadings(a, maxDepth) + TocHeadings(b, maxDepth)
  {
    FilterConcat(a, b, ShownAt(if maxDepth.Some? then maxDepth.value else 3));
  }

  /** Below 256 the cast changes nothing. */
  lemma TocCastHarmless(headings: seq<MarkdownHeading>, maxDepth: Option<U32>)
    requires maxDepth.None? || maxDepth.value < 0x100
    ensures TocHeadingsAsWritten(headings, maxDepth) == TocHeadings(headings, maxDepth)
  {
  }

  /** A `max_depth` of 258 is cast to 2: a level-3 heading the caller asked for is left out. */
  lemma TocCastDropsHeading()
    ensures var hs := [MarkdownHeading(3, "usage", "Usage")];
            && TocHeadingsAsWritten(hs, Some(258)) == []
            && TocHeadings(hs, Some(258)) == hs
  {
    var hs := [MarkdownHeading(3, "usage", "Usage")];
    assert TocDepth(Some(258)) == 2;
    FilterCons(hs, ShownAt(2));
    FilterCons(hs, ShownAt(258));
  }

  /** Each item links to its heading's anchor, and its class names the heading's level. */
  lemma TocItemLinks(headings: seq<MarkdownHeading>, maxDepth: Option<U32>, i: int)
    requires 0 <= i < |TocItems(headings, maxDepth)|
    ensures var h := TocHeadingsAsWritten(headings, maxDepth)[i];
            var it := TocItems(headings, maxDepth)[i];
            && it.href[1..] == h.id && it.href[0] == '#'
            && it.cssClass[10..] == NatToString(h.level)
            && ValueOf(it.cssClass[10..], 10) == h.level
  {
    var h := TocHeadingsAsWritten(headings, maxDepth)[i];
    NatToStringValue(h.level);
  }

  /** The tag parts hold the tags' links in order, each but the last followed by `, `. */
  lemma {:induction false} TagPartsShape(tags: seq<string>, accent: bool, i: int)
    requires 0 <= i < |tags|
    ensures 2 * i < |TagParts(tags, accent)|
    ensures TagParts(tags, accent)[2 * i] == TagLinkOf(tags[i], accent)
    ensures i < |tags| - 1 ==> TagParts(tags, accent)[2 * i + 1] == Text(", ")
    decreases |tags|
  {
    var r := TagParts(tags, accent);
    if i > 0 {
      TagPartsShape(tags[1..], accent, i - 1);
      var head := [TagLinkOf(tags[0], accent)] + [Text(", ")];
      assert |tags| > 1;
      assert r == head + TagParts(tags[1..], accent);
    }
  }

  /** Reading the link texts back off the markup gives the tag list. */
  lemma {:induction false} TagPartsTexts(tags: seq<string>, accent: bool)
    ensures LinkTexts(TagParts(tags, accent)) == tags
    decreases |tags|
  {
    if |tags| > 0 {
      var sep: seq<Fragment> := if |tags| > 1 then [Text(", ")] else [];
      var rest := TagParts(tags[1..], accent);
      TagPartsTexts(tags[1..], accent);
      LinkTextsConcat([TagLinkOf(tags[0], accent)], sep + rest);
      LinkTextsConcat(sep, rest);
      assert [TagLinkOf(tags[0], accent)] + sep + rest == [TagLinkOf(tags[0], accent)] + (sep + rest);
      assert tags == [tags[0]] + tags[1..];
    }
  }

  lemma {:induction false} LinkTextsConcat(a: seq<Fragment>, b: seq<Fragment>)
    ensures LinkTexts(a + b) == LinkTexts(a) + LinkTexts(b)
    decreases |a|
  {
    if |a| == 0 {
      assert a + b == b;
    } else {
      assert (a + b)[1..] == a[1..] + b;
      LinkTextsConcat(a[1..], b);
    }
  }

  /** Every tag link of `Tags` leads to that tag's page and names it in its title; the accent defaults to off. */
  lemma TagsLinks(tags: seq<string>, accentBackground: Option<bool>, i: int)
    requires 0 <= i < |tags|
    ensures var f := Tags(tags, accentBackground)[2 * i + 1];
            && f.TagLink? && f.text == tags[i]
            && f.href == "/articles/tags/" + tags[i]
            && f.accent == (accentBackground == Some(true))
  {
    TagPartsShape(tags, accentBackground == Some(true), i);
  }

  /** Names and icons correspond one to one. */
  lemma IconNameRoundTrip(i: Icon, s: string)
    ensures ParseIcon(IconName(i)) == Some(i)
    ensures ParseIcon(s) == Some(i) ==> IconName(i) == s
  {
  }

  /** No two icons display alike. */
  lemma IconNamesDistinct(a: Icon, b: Icon)
    ensures IconName(a) == IconName(b) ==> a == b
  {
    IconNameRoundTrip(a, IconName(b));
    IconNameRoundTrip(b, IconName(b));
  }

  /** The width reads back as the requested size in pixels. */
  lemma SvgSize(name: string, size: nat, title: string)
    ensures var w := SvgOf(name, size, title).width;
            w[..|w| - 2] == NatToString(size) && ValueOf(w[..|w| - 2], 10) == size
  {
    var w := SvgOf(name, size, title).width;
    assert w[..|w| - 2] == NatToString(size);
    NatToStringValue(size);
  }
}
