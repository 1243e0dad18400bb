/**
 * The Markdown shortcodes both Rust sites register, and the content sources of the
 * current site. The `image` shortcode resolves its `src` against the directory of the
 * Markdown file that uses it and adds a caption when its body holds more than
 * whitespace; the `blockquote` shortcode renders either a titled block or a plain
 * quotation. The two sites differ only in how the caption is written out: the older site
 * escapes it, the current one inserts it as is.
 */
module Shortcodes {
  import opened Wrappers
  import opened Text
  import opened Paths

  // ---------------------------------------------------------------- blockquote

  /** The two renderings of the `blockquote` shortcode. */
  datatype Quote = TitledBlock(title: string, body: string) | Blockquote(body: string)

  /** The `blockquote` shortcode, from its `title`, `block` and `body` attributes. */
  function BlockquoteShortcode(title: Option<string>, block: Option<bool>, body: string): (r: Quote)
    ensures r.body == body
    ensures r.TitledBlock? <==> block == Some(true)
    ensures r.TitledBlock? && title.Some? ==> r.title == title.value
    ensures r.TitledBlock? && title.None? ==> r.title == ""
  {
    if block == Some(true) then TitledBlock(if title.Some? then title.value else "", body)
    else Blockquote(body)
  }

  // ---------------------------------------------------------------- image

  predicate StartsWith(s: string, prefix: string)
  {
    |prefix| <= |s| && s[..|prefix|] == prefix
  }

  /** The image file a `src` names, for the Markdown file at `markdownPath`. */
  function ImagePath(markdownPath: string, src: string): (r: string)
    ensures StartsWith(src, "./") ==> r == Parent(markdownPath) + "/" + src[2..]
    ensures !StartsWith(src, "./") && StartsWith(src, "/") ==> r == src[1..]
    ensures !StartsWith(src, "./") && !StartsWith(src, "/") ==> r == Parent(markdownPath) + "/" + src
  {
    var dir := Parent(markdownPath);
    if StartsWith(src, "./") then dir + "/" + src[2..]
    else if StartsWith(src, "/") then src[1..]
    else dir + "/" + src
  }

  /** The caption: the trimmed body, none when the body is absent or only whitespace. */
  function Caption(body: Option<string>): (r: Option<string>)
    ensures r.None? <==> body.None? || AllSpace(body.value)
    ensures r.Some? ==> r.value != "" && Trimmed(r.value) && |r.value| <= |body.value|
  {
    if body.Some? && !AllSpace(body.value) then Some(Trim(body.value)) else None
  }

  /**
   * The `figure` an `image` shortcode renders: the `img` class and alternative text
   * (empty when absent), the image file handed to the asset pipeline, and the caption
   * markup. The URL, size and placeholder of the processed image are the pipeline's.
   */
  datatype Figure = Figure(imgClass: string, alt: string, image: string, figcaption: Option<string>)

  /** The `image` shortcode, the caption written out by `write`. */
  function ImageShortcode(src: string, alt: Option<string>, imgClass: Option<string>, body: Option<string>,
                          markdownPath: string, write: string -> string): (r: Figure)
    ensures r.image == ImagePath(markdownPath, src)
    ensures r.figcaption.Some? <==> Caption(body).Some?
    ensures r.figcaption.Some? ==> r.figcaption.value == write(Caption(body).value)
    ensures r.alt == (if alt.Some? then alt.value else "")
    ensures r.imgClass == (if imgClass.Some? then imgClass.value else "")
  {
    var caption := Caption(body);
    Figure(if imgClass.Some? then imgClass.value else "",
           if alt.Some? then alt.value else "",
           ImagePath(markdownPath, src),
           if caption.Some? then Some(write(caption.value)) else None)
  }

  /** The older site's `image` shortcode: the caption goes through the template's escaping `escape`. */
  function LegacyImage(src: string, alt: Option<string>, imgClass: Option<string>, body: Option<string>,
                       markdownPath: string, escape: string -> string): (r: Figure)
    ensures Caption(body).None? ==> r.figcaption.None?
    ensures Caption(body).Some? ==> r.figcaption == Some(escape(Caption(body).value))
  {
    ImageShortcode(src, alt, imgClass, body, markdownPath, escape)
  }

  /** The current site's `image` shortcode: the caption is inserted unescaped. */
  function SiteImage(src: string, alt: Option<string>, imgClass: Option<string>, body: Option<string>,
                     markdownPath: string): (r: Figure)
    ensures r.figcaption == Caption(body)
  {
    ImageShortcode(src, alt, imgClass, body, markdownPath, s => s)
  }

  // ---------------------------------------------------------------- content sources

  /** The content kinds the current site loads, in the order it registers them. */
  const ContentKinds: seq<string> := ["blog", "wiki", "projects", "books", "movies", "shows", "games"]

  /** The glob of the Markdown files of one kind. */
  function ContentGlob(root: string, kind: string): (r: string)
    ensures |r| > |root| && r[..|root|] == root
  {
    root + "/content/" + kind + "/**/*.md"
  }

  /** Every source, as its name and its glob. */
  function ContentSources(root: string): (r: seq<(string, string)>)
    ensures |r| == |ContentKinds|
    ensures forall i :: 0 <= i < |r| ==> r[i].0 == ContentKinds[i] && r[i].1 == ContentGlob(root, ContentKinds[i])
  {
    seq(|ContentKinds|, i requires 0 <= i < |ContentKinds| => (ContentKinds[i], ContentGlob(root, ContentKinds[i])))
  }

  // ---------------------------------------------------------------- properties

  /** For a Markdown file `dir/name`, `./x` and `x` are both `dir/x`, and `/x` is `x` from the content root. */
  lemma {:induction false} ImagePathInDirectory(dir: string, name: string, src: string)
    requires |dir| > 0 && '/' !in name
    ensures StartsWith(src, "./") ==> ImagePath(dir + "/" + name, src) == dir + "/" + src[2..]
    ensures !StartsWith(src, "./") && StartsWith(src, "/") ==> ImagePath(dir + "/" + name, src) == src[1..]
    ensures !StartsWith(src, "./") && !StartsWith(src, "/") ==> ImagePath(dir + "/" + name, src) == dir + "/" + src
  {
    DirnameOf(dir, name);
  }

  /** A leading `./` changes nothing: `./x` resolves where `x` does. */
  lemma DotSlashRedundant(markdownPath: string, x: string)
    requires !StartsWith(x, "./") && !StartsWith(x, "/")
    ensures ImagePath(markdownPath, "./" + x) == ImagePath(markdownPath, x)
  {
    var s := "./" + x;
    assert s[..2] == "./" && s[2..] == x;
  }

  /** A Markdown file without a directory resolves `./x` to `/x`, a path from the file system root. */
  lemma BareFileRooted(name: string, x: string)
    requires '/' !in name
    ensures ImagePath(name, "./" + x) == "/" + x
  {
    DirnameOfName(name);
    var s := "./" + x;
    assert s[..2] == "./" && s[2..] == x;
  }

  /** Deriving the caption of a caption gives the same caption. */
  lemma CaptionIdempotent(body: Option<string>)
    ensures Caption(Caption(body)) == Caption(body)
  {
  }

  /** The two sites render the same figure, escaping aside. */
  lemma SitesAgree(src: string, alt: Option<string>, imgClass: Option<string>, body: Option<string>,
                   markdownPath: string, escape: string -> string)
    ensures var a := LegacyImage(src, alt, imgClass, body, markdownPath, escape);
            var b := SiteImage(src, alt, imgClass, body, markdownPath);
            && a.image == b.image && a.alt == b.alt && a.imgClass == b.imgClass
            && a.figcaption.Some? == b.figcaption.Some?
            && (b.figcaption.Some? ==> a.figcaption.value == escape(b.figcaption.value))
  {
  }

  /** Each glob names its kind right after `{root}/content/`, so no two kinds share one. */
  lemma ContentGlobKind(root: string, kind: string)
    ensures var g := ContentGlob(root, kind);
            |g| == |root| + |kind| + 17 && g[|root| + 9..|g| - 8] == kind
  {
  }

  lemma ContentGlobsDistinct(root: string, i: int, j: int)
    requires 0 <= i < j < |ContentKinds|
    ensures ContentSources(root)[i].1 != ContentSources(root)[j].1
  {
    var a := ContentGlob(root, ContentKinds[i]);
    var b := ContentGlob(root, ContentKinds[j]);
    ContentGlobKind(root, ContentKinds[i]);
    ContentGlobKind(root, ContentKinds[j]);
  }
}
