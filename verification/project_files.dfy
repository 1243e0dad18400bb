/**
 * Post-processing of project files on the two Astro sites. Both read the project type
 * from the name of the directory holding the file (`games/`, `softwares/`, ...) with its
 * plural `s` dropped, and build the project's URL from type and slug. The older site also
 * derives the mini-logo URL from the page URL; the princesseuh.dev site prefers an
 * external URL when one is set and picks the image sources of the cover (featured
 * projects only) and of the mini-logo.
 */
module ProjectFiles {
  import opened Wrappers
  import opened Paths

  /** `slice(0, -1)`: everything but the last character. */
  function DropLast(s: string): (r: string)
    ensures |s| > 0 ==> r + [s[|s| - 1]] == s
    ensures |s| == 0 ==> r == ""
  {
    if |s| == 0 then "" else s[..|s| - 1]
  }

  /** `getProjectTypeFromURL`: the name of the file's directory without its last character. */
  function ProjectTypeOf(path: string): string
  {
    DropLast(Basename(Dirname(path)))
  }

  /** Frontmatter dates as read: absent, still text, or already a date of type `D`. */
  datatype FrontDate<D> = NoDate | DateText(text: string) | DateValue(value: D)

  /** `if (typeof d === "string") d = new Date(d)`, the date parser being `parse`. */
  function NormalizeDate<D>(d: FrontDate<D>, parse: string -> D): (r: FrontDate<D>)
    ensures !r.DateText?
    ensures !d.DateText? ==> r == d
    ensures d.DateText? ==> r == DateValue(parse(d.text))
  {
    if d.DateText? then DateValue(parse(d.text)) else d
  }

  // ---------------------------------------------------------------- the older site

  /** The origin `new URL` resolves the project paths against. */
  const LegacyOrigin: string := "http://localhost:3000"

  datatype LegacyProject<D> = LegacyProject(
    kind: string,
    slug: string,
    url: string,
    miniLogo: string,
    startDate: FrontDate<D>,
    endDate: FrontDate<D>)

  /** `postProcessProject` of `src/data/projects.ts`; the slug comes from the shared post-processing. */
  function PostProcessLegacy<D>(pathname: string, slug: string, startDate: FrontDate<D>, endDate: FrontDate<D>,
                                parse: string -> D): (r: LegacyProject<D>)
    ensures r.kind == ProjectTypeOf(pathname) && r.slug == slug
    ensures !r.startDate.DateText? && !r.endDate.DateText?
  {
    var kind := ProjectTypeOf(pathname);
    var url := LegacyOrigin + "/projects/" + kind + "s/" + slug;
    LegacyProject(kind, slug, url, url + "/mini-logo.png", NormalizeDate(startDate, parse), NormalizeDate(endDate, parse))
  }

  // ---------------------------------------------------------------- the princesseuh.dev site

  /** The origin of `getBaseSiteURL`, in production or in development. */
  function SiteOrigin(prod: bool): string
  {
    if prod then "https://princesseuh.dev" else "http://localhost:3000"
  }

  /** `getBaseSiteURL`. */
  function BaseSiteUrl(prod: bool): (r: string)
    ensures r == SiteOrigin(prod) + "/"
  {
    if prod then "https://princesseuh.dev/" else "http://localhost:3000/"
  }

  /** The frontmatter fields the post-processing reads. */
  datatype Frontmatter<D> = Frontmatter(
    featured: Option<bool>,
    externalUrl: Option<string>,
    startDate: FrontDate<D>,
    endDate: FrontDate<D>)

  /** The image sources handed to the image generator: the cover only for featured projects. */
  datatype Assets = Assets(indexCover: Option<string>, miniLogo: string)

  datatype SiteProject<D> = SiteProject(
    slug: string,
    kind: string,
    url: string,
    assets: Assets,
    startDate: FrontDate<D>,
    endDate: FrontDate<D>)

  /** `projectBaseDir`. */
  function BaseDir(kind: string, slug: string): string
  {
    "/projects/" + kind + "s/" + slug + "/"
  }

  /** A set, non-empty `external_url`: the truthiness test of the source. */
  predicate HasExternalUrl<D>(fm: Frontmatter<D>)
  {
    fm.externalUrl.Some? && fm.externalUrl.value != ""
  }

  /** `postProcessProject` of the princesseuh.dev site. */
  function PostProcess<D>(fm: Frontmatter<D>, file: string, prod: bool, parse: string -> D): (r: SiteProject<D>)
    ensures r.slug == FileStem(file) && r.kind == ProjectTypeOf(file)
    ensures HasExternalUrl(fm) ==> r.url == fm.externalUrl.value
    ensures !HasExternalUrl(fm) ==> r.url == SiteOrigin(prod) + BaseDir(r.kind, r.slug)
    ensures r.assets.indexCover.Some? <==> fm.featured == Some(true)
    ensures !r.startDate.DateText? && !r.endDate.DateText?
  {
    var slug := FileStem(file);
    var kind := ProjectTypeOf(file);
    var baseDir := BaseDir(kind, slug);
    var url := if HasExternalUrl(fm) then fm.externalUrl.value else SiteOrigin(prod) + baseDir;
    var cover := if fm.featured == Some(true) then Some("content/assets" + baseDir + "cover.png") else None;
    var assets := Assets(cover, "content/assets" + baseDir + "mini-logo.png");
    SiteProject(slug, kind, url, assets, NormalizeDate(fm.startDate, parse), NormalizeDate(fm.endDate, parse))
  }

  // ---------------------------------------------------------------- properties

  /** A file under `.../{type}s/` has type `type`. */
  lemma ProjectTypeOfPath(dir: string, t: string, file: string)
    requires '/' !in t && '/' !in file
    ensures ProjectTypeOf(dir + "/" + t + "s/" + file) == t
  {
    var folder := dir + "/" + t + "s";
    assert dir + "/" + t + "s/" + file == folder + "/" + file;
    DirnameOf(folder, file);
    assert '/' !in t + "s";
    assert folder == dir + "/" + (t + "s");
    BasenameOf(dir, t + "s");
    assert (t + "s")[..|t|] == t;
  }

  /** Normalising a date twice is normalising it once. */
  lemma NormalizeIdempotent<D>(d: FrontDate<D>, parse: string -> D)
    ensures NormalizeDate(NormalizeDate(d, parse), parse) == NormalizeDate(d, parse)
  {
  }

  /** On the older site, a project file at `.../{type}s/` links to `/projects/{type}s/{slug}`, its mini-logo beneath. */
  lemma LegacyUrls<D>(dir: string, t: string, file: string, slug: string,
                      startDate: FrontDate<D>, endDate: FrontDate<D>, parse: string -> D)
    requires '/' !in t && '/' !in file
    ensures var r := PostProcessLegacy(dir + "/" + t + "s/" + file, slug, startDate, endDate, parse);
            && r.kind == t
            && r.url == LegacyOrigin + "/projects/" + t + "s/" + slug
            && r.miniLogo == r.url + "/mini-logo.png"
  {
    ProjectTypeOfPath(dir, t, file);
  }

  /**
   * On princesseuh.dev, the file `dir/{type}s/{stem}.{ext}` without external URL gets the
   * page `/projects/{type}s/{stem}/` on the site's origin.
   */
  lemma SiteUrls<D>(fm: Frontmatter<D>, dir: string, t: string, stem: string, ext: string, prod: bool, parse: string -> D)
    requires '/' !in t && |stem| > 0 && '/' !in stem && '/' !in ext && '.' !in ext
    requires !HasExternalUrl(fm)
    ensures var r := PostProcess(fm, dir + "/" + t + "s/" + stem + "." + ext, prod, parse);
            && r.slug == stem && r.kind == t
            && r.url == SiteOrigin(prod) + BaseDir(t, stem)
  {
    var name := stem + "." + ext;
    var file := dir + "/" + t + "s/" + stem + "." + ext;
    assert file == (dir + "/" + t + "s") + "/" + stem + "." + ext;
    FileStemOf(dir + "/" + t + "s", stem, ext);
    assert file == dir + "/" + t + "s/" + name;
    assert '/' !in name;
    ProjectTypeOfPath(dir, t, name);
  }

  /** The page URL and the image sources of a project share its base directory. */
  lemma AssetsBesidePage<D>(fm: Frontmatter<D>, file: string, prod: bool, parse: string -> D)
    requires !HasExternalUrl(fm)
    ensures var r := PostProcess(fm, file, prod, parse);
            var d := BaseDir(r.kind, r.slug);
            && r.url == SiteOrigin(prod) + d
            && r.assets.miniLogo == "content/assets" + d + "mini-logo.png"
            && (r.assets.indexCover.Some? ==> r.assets.indexCover.value == "content/assets" + d + "cover.png")
  {
  }
}
