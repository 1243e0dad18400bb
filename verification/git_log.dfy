/**
 * The small parsers over `git log` output that give wiki pages their "last modified"
 * line and the changelog page its entries. The shell scripts that produce the output
 * are not modelled: their output is the input here. Both the Rust build and the older
 * Astro build read the same `file|date|ref;` records, with different strictness.
 */
module GitLog {
  import opened Wrappers
  import opened Text
  import opened Seqs
  import opened Calendar
  import opened Paths

  /** Where a commit reference points. */
  const CommitBase := "https://github.com/Princesseuh/erika.florist/commit/"

  /** One `file|date|ref` record. */
  datatype Record = Record(file: string, date: string, ref: string)

  datatype GitInfo = GitInfo(date: string, ref: string)

  // ---------------------------------------------------------------- the Rust reading

  predicate NotBlank(s: string)
  {
    !AllSpace(s)
  }

  function IsNotBlank(): string -> bool
  {
    (s: string) => NotBlank(s)
  }

  /** The segments between `;` that hold more than whitespace. */
  function Segments(stdout: string): (r: seq<string>)
    ensures forall x :: x in r <==> x in Split(stdout, ";") && NotBlank(x)
  {
    Filter(Split(stdout, ";"), IsNotBlank())
  }

  /** One segment: the first three `|` parts as file, trimmed date and ref, none of them empty. */
  function ParseSegment(info: string): (r: Option<Record>)
    ensures r.Some? ==> r.value.file != "" && r.value.date != "" && r.value.ref != "" && Trimmed(r.value.date)
  {
    var parts := Split(info, "|");
    if |parts| >= 3 && parts[0] != "" && Trim(parts[1]) != "" && parts[2] != "" then
      Some(Record(parts[0], Trim(parts[1]), parts[2]))
    else None
  }

  function ParseError(info: string): string
  {
    "Couldn't parse file info from " + info
  }

  /** Every item must parse, in order; the first one that does not names the error. */
  function ParseAll<A, B>(xs: seq<A>, parse: A -> Option<B>, err: A -> string): (r: Result<seq<B>, string>)
    ensures r.Success? <==> forall i :: 0 <= i < |xs| ==> parse(xs[i]).Some?
    ensures r.Success? ==> |r.value| == |xs| && forall i :: 0 <= i < |xs| ==> parse(xs[i]) == Some(r.value[i])
    ensures r.Failure? ==> exists i :: (0 <= i < |xs| && parse(xs[i]).None? && r.error == err(xs[i])
                                        && forall j :: 0 <= j < i ==> parse(xs[j]).Some?)
    decreases |xs|
  {
    if |xs| == 0 then Success([])
    else
      var head := parse(xs[0]);
      if head.None? then Failure(err(xs[0]))
      else
        var rest := ParseAll(xs[1..], parse, err);
        assert forall j :: 1 <= j < |xs| ==> xs[j] == xs[1..][j - 1];
        if rest.Failure? then rest else Success([head.value] + rest.value)
  }

  function SegmentParser(): string -> Option<Record>
  {
    (s: string) => ParseSegment(s)
  }

  function ParseErrorOf(): string -> string
  {
    (s: string) => ParseError(s)
  }

  function ParseSegments(segs: seq<string>): (r: Result<seq<Record>, string>)
    ensures r.Success? <==> forall i :: 0 <= i < |segs| ==> ParseSegment(segs[i]).Some?
    ensures r.Success? ==> |r.value| == |segs| && forall i :: 0 <= i < |segs| ==> ParseSegment(segs[i]) == Some(r.value[i])
  {
    ParseAll(segs, SegmentParser(), ParseErrorOf())
  }

  /** The records as a map keyed by file; a later record for the same file overwrites an earlier one. */
  function InfoMap(rs: seq<Record>): (m: map<string, GitInfo>)
    ensures forall f :: f in m <==> exists i :: 0 <= i < |rs| && rs[i].file == f
    decreases |rs|
  {
    if |rs| == 0 then map[]
    else
      var last := rs[|rs| - 1];
      var m := InfoMap(rs[..|rs| - 1]);
      assert forall i :: 0 <= i < |rs| - 1 ==> rs[..|rs| - 1][i] == rs[i];
      m[last.file := GitInfo(last.date, last.ref)]
  }

  /** The value kept for a file is the one from its last record. */
  lemma {:induction false} InfoMapLast(rs: seq<Record>, i: nat)
    requires i < |rs|
    requires forall j :: i < j < |rs| ==> rs[j].file != rs[i].file
    ensures InfoMap(rs)[rs[i].file] == GitInfo(rs[i].date, rs[i].ref)
    decreases |rs|
  {
    if i < |rs| - 1 {
      var init := rs[..|rs| - 1];
      assert init[i] == rs[i];
      assert forall j :: i < j < |init| ==> init[j] == rs[j];
      InfoMapLast(init, i);
    }
  }

  /** `get_git_info` on the script's output. */
  function GetGitInfo(stdout: string): (r: Result<map<string, GitInfo>, string>)
    ensures r.Success? <==> forall s :: s in Segments(stdout) ==> ParseSegment(s).Some?
  {
    var rs := ParseSegments(Segments(stdout));
    if rs.Success? then Success(InfoMap(rs.value)) else Failure(rs.error)
  }

  // ---------------------------------------------------------------- the records as the script prints them

  /** A record the script can print: no separator inside a field, no field empty, the date without surrounding blanks. */
  predicate Printable(r: Record)
  {
    && r.file != "" && r.date != "" && r.ref != "" && Trimmed(r.date)
    && !Contains(r.file, "|") && !Contains(r.date, "|") && !Contains(r.ref, "|")
    && !Contains(r.file, ";") && !Contains(r.date, ";") && !Contains(r.ref, ";")
  }

  function RecordText(r: Record): string
  {
    r.file + "|" + r.date + "|" + r.ref
  }

  /** Every record followed by `;`. */
  function Printed(rs: seq<Record>): string
  {
    Terminated(Texts(rs), ";")
  }

  lemma NoSeparatorInSingleChars(a: string, sep: string, b: string, c: string)
    requires |sep| == 1 && |b| == 1 && sep != b
    requires !Contains(a, b) && !Contains(c, b)
    ensures !Contains(a + sep + c, b)
  {
    var s := a + sep + c;
    if Contains(s, b) {
      var k: nat :| k <= |s| && OccursAt(s, b, k);
      if k < |a| {
        assert a[k..k + 1] == s[k..k + 1];
        assert OccursAt(a, b, k);
      } else if k == |a| {
        assert false;
      } else {
        var k': nat := k - |a| - 1;
        assert c[k'..k' + 1] == s[k..k + 1];
        assert OccursAt(c, b, k');
      }
    }
  }

  lemma SplitRecordText(r: Record)
    requires Printable(r)
    ensures Split(RecordText(r), "|") == [r.file, r.date, r.ref]
  {
    var parts := [r.file, r.date, r.ref];
    assert Join(parts, "|") == RecordText(r) by {
      JoinCons(r.file, [r.date, r.ref], "|");
      JoinCons(r.date, [r.ref], "|");
    }
    SplitOfJoin(parts, "|");
  }

  lemma RecordTextUnbroken(r: Record)
    requires Printable(r)
    ensures !Contains(RecordText(r), ";")
    ensures NotBlank(RecordText(r))
  {
    NoSeparatorInSingleChars(r.file, "|", ";", r.date);
    NoSeparatorInSingleChars(r.file + "|" + r.date, "|", ";", r.ref);
    assert RecordText(r)[|r.file|] == '|';
  }

  /** A printed record reads back as itself. */
  lemma ParseSegmentOfText(r: Record)
    requires Printable(r)
    ensures ParseSegment(RecordText(r)) == Some(r)
    ensures !Contains(RecordText(r), ";")
    ensures NotBlank(RecordText(r))
  {
    SplitRecordText(r);
    RecordTextUnbroken(r);
  }

  /** Splitting the printed records on `;` gives their texts, then an empty tail. */
  lemma SplitPrinted(rs: seq<Record>)
    requires forall i :: 0 <= i < |rs| ==> Printable(rs[i])
    ensures Split(Printed(rs), ";") == Texts(rs) + [""]
  {
    forall i | 0 <= i < |rs|
      ensures !Contains(Texts(rs)[i], ";")
    {
      RecordTextUnbroken(rs[i]);
    }
    SplitTerminated(Texts(rs), ";");
  }

  function Texts(rs: seq<Record>): (r: seq<string>)
    ensures |r| == |rs| && forall i :: 0 <= i < |rs| ==> r[i] == RecordText(rs[i])
  {
    seq(|rs|, i requires 0 <= i < |rs| => RecordText(rs[i]))
  }

  /** Reading the printed records gives back the records, each segment kept. */
  lemma SegmentsOfPrinted(rs: seq<Record>)
    requires forall i :: 0 <= i < |rs| ==> Printable(rs[i])
    ensures Segments(Printed(rs)) == Texts(rs)
  {
    SplitPrinted(rs);
    FilterConcat(Texts(rs), [""], IsNotBlank());
    forall i | 0 <= i < |rs|
      ensures NotBlank(Texts(rs)[i])
    {
      ParseSegmentOfText(rs[i]);
    }
    FilterAll(Texts(rs), IsNotBlank());
    assert !NotBlank("");
  }

  /** Both readings parse the printed records' texts into the records. */
  lemma ParsedTexts(rs: seq<Record>)
    requires forall i :: 0 <= i < |rs| ==> Printable(rs[i])
    ensures ParseSegments(Texts(rs)) == Success(rs)
    ensures ParseLines(Texts(rs)) == Success(rs)
  {
    var ts := Texts(rs);
    forall i | 0 <= i < |rs|
      ensures ParseSegment(ts[i]) == Some(rs[i]) && ParseLine(ts[i]) == Some(rs[i])
    {
      ParseSegmentOfText(rs[i]);
      ReadingsAgree(ts[i]);
    }
    ParsedAll(ts, rs, SegmentParser(), ParseErrorOf());
    ParsedAll(ts, rs, LineParser(), ParseErrorOf());
  }

  lemma ParsedAll<A, B>(xs: seq<A>, ys: seq<B>, parse: A -> Option<B>, err: A -> string)
    requires |xs| == |ys| && forall i :: 0 <= i < |xs| ==> parse(xs[i]) == Some(ys[i])
    ensures ParseAll(xs, parse, err) == Success(ys)
  {
    var r := ParseAll(xs, parse, err);
    assert r.Success?;
    assert forall i :: 0 <= i < |xs| ==> r.value[i] == ys[i];
    assert r.value == ys;
  }

  /** The script's output for printable records parses into the map of those records. */
  lemma GetGitInfoOfPrinted(rs: seq<Record>)
    requires forall i :: 0 <= i < |rs| ==> Printable(rs[i])
    ensures GetGitInfo(Printed(rs)) == Success(InfoMap(rs))
  {
    SegmentsOfPrinted(rs);
    ParsedTexts(rs);
  }

  // ---------------------------------------------------------------- last-modified data on wiki entries

  /** The Unix epoch's date, the fallback whenever a real date is missing. */
  const Epoch: ValidDate := Date(1970, 1, 1)

  datatype LastModified = LastModified(date: ValidDate, commitUrl: string)

  /** `wiki_add_modified_info`'s per-entry rule. */
  function LastModifiedFor(info: map<string, GitInfo>, path: string, isDev: bool, parseYmd: string -> Option<ValidDate>): Option<LastModified>
  {
    if path in info then
      var gi := info[path];
      Some(LastModified(parseYmd(gi.date).UnwrapOr(Epoch), CommitBase + gi.ref))
    else if isDev then Some(LastModified(Epoch, "#"))
    else None
  }

  /**
   * With a record, the date is the parsed one or the epoch and the link is the commit's;
   * without one, development builds get the epoch and `#`, production builds nothing.
   */
  lemma LastModifiedRules(info: map<string, GitInfo>, path: string, isDev: bool, parseYmd: string -> Option<ValidDate>)
    ensures var r := LastModifiedFor(info, path, isDev, parseYmd);
            && (path in info ==> r.Some? && StartsWith(r.value.commitUrl, CommitBase)
                                 && r.value.commitUrl[|CommitBase|..] == info[path].ref
                                 && (parseYmd(info[path].date).Some? ==> r.value.date == parseYmd(info[path].date).value)
                                 && (parseYmd(info[path].date).None? ==> r.value.date == Epoch))
            && (path !in info ==> (r.Some? <==> isDev) && (isDev ==> r.value == LastModified(Epoch, "#")))
  {
    if path in info {
      var url := CommitBase + info[path].ref;
      assert url[..|CommitBase|] == CommitBase;
    }
  }

  datatype WikiFile = WikiFile(id: string, filePath: Option<string>)

  datatype WikiEntry = WikiEntry(id: string, filePath: string, lastModified: Option<LastModified>)

  /** The git map, or an empty one when the script could not run or its output does not parse. */
  function GitInfoOrEmpty(stdout: Option<string>): map<string, GitInfo>
  {
    match stdout
    case None => map[]
    case Some(out) =>
      match GetGitInfo(out)
      case Success(m) => m
      case Failure(_) => map[]
  }

  function Annotate(files: seq<WikiFile>, info: map<string, GitInfo>, isDev: bool, parseYmd: string -> Option<ValidDate>): Result<seq<WikiEntry>, string>
    decreases |files|
  {
    if |files| == 0 then Success([])
    else
      match files[0].filePath
      case None => Failure("entry has no file path")
      case Some(p) =>
        var rest :- Annotate(files[1..], info, isDev, parseYmd);
        Success([WikiEntry(files[0].id, p, LastModifiedFor(info, p, isDev, parseYmd))] + rest)
  }

  /** `wiki_add_modified_info`: one entry per file, in order; a file without a path is the `unwrap` that panics. */
  function AddModifiedInfo(files: seq<WikiFile>, stdout: Option<string>, isDev: bool, parseYmd: string -> Option<ValidDate>): Result<seq<WikiEntry>, string>
  {
    Annotate(files, GitInfoOrEmpty(stdout), isDev, parseYmd)
  }

  /** The entries keep their ids, number and order, and each carries its own file's rule; only a missing path fails. */
  lemma {:induction false} AnnotateShape(files: seq<WikiFile>, info: map<string, GitInfo>, isDev: bool, parseYmd: string -> Option<ValidDate>)
    ensures var r := Annotate(files, info, isDev, parseYmd);
            && (r.Success? <==> forall i :: 0 <= i < |files| ==> files[i].filePath.Some?)
            && (r.Success? ==> |r.value| == |files| && forall i :: 0 <= i < |files| ==>
                  && r.value[i].id == files[i].id
                  && Some(r.value[i].filePath) == files[i].filePath
                  && r.value[i].lastModified == LastModifiedFor(info, r.value[i].filePath, isDev, parseYmd))
    decreases |files|
  {
    if |files| > 0 {
      AnnotateShape(files[1..], info, isDev, parseYmd);
      assert forall j :: 1 <= j < |files| ==> files[j] == files[1..][j - 1];
    }
  }

  /** When the git output is unusable, production entries carry no date and development ones the epoch and `#`. */
  lemma NoGitInfo(files: seq<WikiFile>, stdout: Option<string>, isDev: bool, parseYmd: string -> Option<ValidDate>)
    requires stdout.None? || GetGitInfo(stdout.value).Failure?
    ensures var r := AddModifiedInfo(files, stdout, isDev, parseYmd);
            r.Success? ==> forall i :: 0 <= i < |r.value| ==>
              r.value[i].lastModified == (if isDev then Some(LastModified(Epoch, "#")) else None)
  {
    AnnotateShape(files, map[], isDev, parseYmd);
  }

  // ---------------------------------------------------------------- the Astro reading

  /**
   * The older build's reading: the last `;` segment is dropped unseen, and every other
   * one must have a non-empty file, date and ref before the date is trimmed.
   */
  function ParseLine(info: string): (r: Option<Record>)
    ensures r.Some? ==> r.value.file != "" && r.value.ref != "" && Trimmed(r.value.date)
  {
    var parts := Split(info, "|");
    if |parts| >= 3 && parts[0] != "" && parts[1] != "" && parts[2] != "" then
      Some(Record(parts[0], Trim(parts[1]), parts[2]))
    else None
  }

  function LineParser(): string -> Option<Record>
  {
    (s: string) => ParseLine(s)
  }

  function ParseLines(lines: seq<string>): (r: Result<seq<Record>, string>)
    ensures r.Success? <==> forall i :: 0 <= i < |lines| ==> ParseLine(lines[i]).Some?
    ensures r.Success? ==> |r.value| == |lines| && forall i :: 0 <= i < |lines| ==> ParseLine(lines[i]) == Some(r.value[i])
  {
    ParseAll(lines, LineParser(), ParseErrorOf())
  }

  function GitRecords(stdout: string): Result<seq<Record>, string>
  {
    var segs := Split(stdout, ";");
    ParseLines(segs[..|segs| - 1])
  }

  /** A segment the Rust reading accepts, the Astro reading accepts with the same record. */
  lemma ReadingsAgree(info: string)
    requires ParseSegment(info).Some?
    ensures ParseLine(info) == ParseSegment(info)
  {
  }

  /** The Astro reading of printed records is the records themselves, in order. */
  lemma GitRecordsOfPrinted(rs: seq<Record>)
    requires forall i :: 0 <= i < |rs| ==> Printable(rs[i])
    ensures GitRecords(Printed(rs)) == Success(rs)
  {
    SplitPrinted(rs);
    assert (Texts(rs) + [""])[..|rs|] == Texts(rs);
    ParsedTexts(rs);
  }

  /** `filePath && info.file.endsWith(filePath)`. */
  predicate MatchesPath(r: Record, path: string)
  {
    path != "" && EndsWith(r.file, path)
  }

  /** The first record whose file ends with the path; an empty path matches nothing. */
  function FindRecord(rs: seq<Record>, path: string): (r: Option<nat>)
    ensures r.Some? ==> r.value < |rs| && MatchesPath(rs[r.value], path)
                        && forall j :: 0 <= j < r.value ==> !MatchesPath(rs[j], path)
    ensures r.None? ==> forall j :: 0 <= j < |rs| ==> !MatchesPath(rs[j], path)
    decreases |rs|
  {
    if |rs| == 0 then None
    else if MatchesPath(rs[0], path) then Some(0)
    else
      var r := FindRecord(rs[1..], path);
      assert forall j :: 1 <= j < |rs| ==> rs[j] == rs[1..][j - 1];
      if r.None? then None else Some(r.value + 1)
  }

  /** The Astro build's last-modified data: a JavaScript date and a link. */
  datatype Modified<D> = Modified(date: D, commitUrl: string)

  /**
   * `getLastModified`: the first matching record's date and commit link; without one, a
   * production build fails and any other falls back to now and the site root.
   */
  function GetLastModified<D>(rs: seq<Record>, path: string, prod: bool, now: D, siteRoot: string, parseDate: string -> D): (r: Result<Modified<D>, string>)
    ensures r.Failure? <==> prod && FindRecord(rs, path).None?
    ensures FindRecord(rs, path).Some? ==>
              var rec := rs[FindRecord(rs, path).value];
              r == Success(Modified(parseDate(rec.date), CommitBase + rec.ref))
    ensures FindRecord(rs, path).None? && !prod ==> r == Success(Modified(now, siteRoot))
  {
    var i := FindRecord(rs, path);
    if i.Some? then Success(Modified(parseDate(rs[i.value].date), CommitBase + rs[i.value].ref))
    else if prod then Failure("Couldn't find commit information for " + path)
    else Success(Modified(now, siteRoot))
  }

  /** A loader input: an id and, when the glob found one, a file path. */
  datatype Found = Found(id: string, filePath: Option<string>)

  function HasPath(): Found -> bool
  {
    (f: Found) => f.filePath.Some?
  }

  /**
   * The loaders' shared loop: entries without a path are dropped, the others are loaded
   * in order, and the first load that fails fails the whole store.
   */
  function LoadEach<X>(found: seq<Found>, load: string -> Result<X, string>): Result<seq<X>, string>
    decreases |found|
  {
    if |found| == 0 then Success([])
    else
      var rest := LoadEach(found[1..], load);
      if found[0].filePath.None? then rest
      else
        var x := load(found[0].filePath.value);
        if x.Failure? then Failure(x.error)
        else if rest.Failure? then rest
        else Success([x.value] + rest.value)
  }

  /** The entries a loader keeps. */
  function Kept(found: seq<Found>): seq<Found>
  {
    Filter(found, HasPath())
  }

  /** A load fails exactly when loading some entry with a path fails. */
  lemma {:induction false} LoadEachFails<X>(found: seq<Found>, load: string -> Result<X, string>)
    ensures LoadEach(found, load).Success? <==>
              forall i :: 0 <= i < |found| && found[i].filePath.Some? ==> load(found[i].filePath.value).Success?
    decreases |found|
  {
    if |found| > 0 {
      LoadEachFails(found[1..], load);
      assert forall j :: 1 <= j < |found| ==> found[j] == found[1..][j - 1];
    }
  }

  /** A successful load holds one result per kept entry, in order, each that entry's own. */
  lemma {:induction false} LoadEachResults<X>(found: seq<Found>, load: string -> Result<X, string>)
    requires LoadEach(found, load).Success?
    ensures var r := LoadEach(found, load).value;
            |r| == |Kept(found)| && forall i :: 0 <= i < |r| ==> load(Kept(found)[i].filePath.value) == Success(r[i])
    decreases |found|
  {
    if |found| > 0 {
      var rest := LoadEach(found[1..], load);
      assert rest.Success?;
      LoadEachResults(found[1..], load);
      FilterCons(found, HasPath());
      if found[0].filePath.Some? {
        var x := load(found[0].filePath.value);
        assert LoadEach(found, load).value == [x.value] + rest.value;
        assert Kept(found) == [found[0]] + Kept(found[1..]);
      }
    }
  }

  /** The wiki loader: each entry with a path gets its last-modified data. */
  function WikiLoad<D>(found: seq<Found>, rs: seq<Record>, prod: bool, now: D, siteRoot: string, parseDate: string -> D): Result<seq<Modified<D>>, string>
  {
    LoadEach(found, (p: string) => GetLastModified(rs, p, prod, now, siteRoot, parseDate))
  }

  /**
   * The wiki loader gives one result per entry with a path, in order, each from its own
   * file's records; outside production it never fails.
   */
  lemma WikiLoadEntries<D>(found: seq<Found>, rs: seq<Record>, prod: bool, now: D, siteRoot: string, parseDate: string -> D)
    ensures var r := WikiLoad(found, rs, prod, now, siteRoot, parseDate);
            && (!prod ==> r.Success?)
            && (r.Success? ==> (|r.value| == |Kept(found)|
                                && forall i :: 0 <= i < |r.value| ==>
                                     GetLastModified(rs, Kept(found)[i].filePath.value, prod, now, siteRoot, parseDate) == Success(r.value[i])))
  {
    var load := (p: string) => GetLastModified(rs, p, prod, now, siteRoot, parseDate);
    LoadEachFails(found, load);
    if WikiLoad(found, rs, prod, now, siteRoot, parseDate).Success? {
      LoadEachResults(found, load);
    }
  }

  function MetadataOf<M>(m: Option<M>, path: string): Result<M, string>
  {
    if m.Some? then Success(m.value) else Failure("metadata of " + path + " does not parse")
  }

  /** The catalogue loader: each entry with a path gets its sibling metadata, whose parse failure is fatal. */
  function CatalogueLoad<M>(found: seq<Found>, readMetadata: string -> Option<M>): Result<seq<M>, string>
  {
    LoadEach(found, (p: string) => MetadataOf(readMetadata(p), p))
  }

  /**
   * The catalogue loader fails exactly when some entry's metadata does not parse;
   * otherwise it gives one metadata value per entry with a path, in order.
   */
  lemma CatalogueLoadEntries<M>(found: seq<Found>, readMetadata: string -> Option<M>)
    ensures var r := CatalogueLoad(found, readMetadata);
            && (r.Success? <==> forall i :: 0 <= i < |found| && found[i].filePath.Some? ==> readMetadata(found[i].filePath.value).Some?)
            && (r.Success? ==> (|r.value| == |Kept(found)|
                                && forall i :: 0 <= i < |r.value| ==> readMetadata(Kept(found)[i].filePath.value) == Some(r.value[i])))
  {
    var load := (p: string) => MetadataOf(readMetadata(p), p);
    LoadEachFails(found, load);
    if CatalogueLoad(found, readMetadata).Success? {
      LoadEachResults(found, load);
    }
  }

  /** `generateSlug`: the frontmatter slug when it is set and not empty, otherwise the file name without `.mdoc`. */
  function GenerateSlug(dataSlug: Option<string>, entry: string): (r: string)
    ensures dataSlug.Some? && dataSlug.value != "" ==> r == dataSlug.value
    ensures (dataSlug.None? || dataSlug.value == "") && EndsWith(Basename(entry), ".mdoc") && |Basename(entry)| > 5 ==>
              r + ".mdoc" == Basename(entry)
    ensures (dataSlug.None? || dataSlug.value == "") && !EndsWith(Basename(entry), ".mdoc") ==> r == Basename(entry)
  {
    if dataSlug.Some? && dataSlug.value != "" then dataSlug.value
    else
      var b := Basename(entry);
      if EndsWith(b, ".mdoc") && |b| > 5 then
        assert b == b[..|b| - 5] + b[|b| - 5..];
        b[..|b| - 5]
      else b
  }

  /** A `.mdoc` file's slug, without a frontmatter slug, is its name without the extension. */
  lemma GenerateSlugOfPath(dir: string, slug: string)
    requires slug != "" && '/' !in slug
    ensures GenerateSlug(None, dir + "/" + slug + ".mdoc") == slug
  {
    var name := slug + ".mdoc";
    var p := dir + "/" + slug + ".mdoc";
    assert '/' !in name;
    ConsAppend(dir + "/", slug, ".mdoc");
    BasenameOf(dir, name);
    MdocName(slug);
    var r := GenerateSlug(None, p);
    assert r + ".mdoc" == slug + ".mdoc";
    assert r == (r + ".mdoc")[..|r|];
  }

  lemma ConsAppend(a: string, b: string, c: string)
    ensures a + b + c == a + (b + c)
  {
  }

  lemma MdocName(slug: string)
    requires slug != ""
    ensures EndsWith(slug + ".mdoc", ".mdoc") && |slug + ".mdoc"| > 5
  {
    var n := slug + ".mdoc";
    assert n[|n| - 5..] == ".mdoc";
  }

  // ---------------------------------------------------------------- changelog

  datatype Change<D> = Change(ref: string, link: string, date: D, desc: string, isCatalogue: bool)

  /** The first `[skip ci]` and the first `[auto]` go, then the blanks around. */
  function CleanDescription(desc: string): (r: string)
    ensures Trimmed(r)
    ensures !Contains(desc, "[skip ci]") && !Contains(desc, "[auto]") ==> r == Trim(desc)
  {
    Trim(ReplaceFirst(ReplaceFirst(desc, "[skip ci]", ""), "[auto]", ""))
  }

  /** A `[skip ci]` after a text free of it is removed, and the rest is trimmed. */
  lemma CleanDescriptionSkipCi(p: string, q: string)
    requires !Contains(p, "[skip ci]") && !Contains(p + q, "[auto]")
    ensures CleanDescription(p + "[skip ci]" + q) == Trim(p + q)
  {
    ReplaceFirstMarker(p, "[skip ci]", q);
  }

  /** An `[auto]` after a text free of it is removed, and the rest is trimmed. */
  lemma CleanDescriptionAuto(p: string, q: string)
    requires !Contains(p + "[auto]" + q, "[skip ci]") && !Contains(p, "[auto]")
    ensures CleanDescription(p + "[auto]" + q) == Trim(p + q)
  {
    ReplaceFirstMarker(p, "[auto]", q);
  }

  /** One `ref$SEP$date$SEP$desc` line; any missing or empty part is an error. */
  function ParseChange<D>(line: string, parseDate: string -> D): (r: Option<Change<D>>)
    ensures r.Some? ==> Trimmed(r.value.ref) && StartsWith(r.value.link, CommitBase)
                        && r.value.link[|CommitBase|..] == r.value.ref
                        && (r.value.isCatalogue <==> StartsWith(r.value.desc, "content(catalogue):"))
  {
    var parts := Split(line, "$SEP$");
    if |parts| >= 3 && parts[0] != "" && parts[1] != "" && parts[2] != "" then
      var ref := Trim(parts[0]);
      var desc := CleanDescription(ReplaceFirst(parts[2], "$END$", ""));
      var link := CommitBase + ref;
      assert link[..|CommitBase|] == CommitBase && link[|CommitBase|..] == ref;
      Some(Change(ref, link, parseDate(parts[1]), desc, StartsWith(desc, "content(catalogue):")))
    else None
  }

  function ChangeParser<D>(parseDate: string -> D): string -> Option<Change<D>>
  {
    (s: string) => ParseChange(s, parseDate)
  }

  function ParseChanges<D>(lines: seq<string>, parseDate: string -> D): (r: Result<seq<Change<D>>, string>)
    ensures r.Success? <==> forall i :: 0 <= i < |lines| ==> ParseChange(lines[i], parseDate).Some?
    ensures r.Success? ==> |r.value| == |lines| && forall i :: 0 <= i < |lines| ==> ParseChange(lines[i], parseDate) == Some(r.value[i])
  {
    ParseAll(lines, ChangeParser(parseDate), ParseErrorOf())
  }

  function NotCi<D(!new)>(): Change<D> -> bool
  {
    (c: Change<D>) => !StartsWith(c.desc, "[ci]")
  }

  /** The `$END$`-terminated lines; whatever follows the last marker is dropped. */
  function ChangelogLines(raw: string): seq<string>
  {
    var lines := Split(raw, "$END$");
    lines[..|lines| - 1]
  }

  /** `getChangelog`: the lines parsed in order, without the `[ci]` ones. */
  function GetChangelog<D(!new)>(raw: string, parseDate: string -> D): Result<seq<Change<D>>, string>
  {
    var changes := ParseChanges(ChangelogLines(raw), parseDate);
    if changes.Failure? then Failure(changes.error) else Success(Filter(changes.value, NotCi()))
  }

  /** The parsed entries are exactly the parses of the lines. */
  lemma ParsedChangeMembers<D>(lines: seq<string>, parseDate: string -> D, c: Change<D>)
    requires ParseChanges(lines, parseDate).Success?
    ensures c in ParseChanges(lines, parseDate).value <==> exists i :: 0 <= i < |lines| && ParseChange(lines[i], parseDate) == Some(c)
  {
    var p := ParseChanges(lines, parseDate).value;
    if c in p {
      var k :| 0 <= k < |p| && p[k] == c;
      assert ParseChange(lines[k], parseDate) == Some(c);
    }
  }

  /**
   * The changelog fails exactly when some line does not parse; otherwise it holds exactly
   * the parsed entries whose description does not start with `[ci]`, in input order.
   */
  lemma ChangelogEntries<D(!new)>(raw: string, parseDate: string -> D, c: Change<D>)
    ensures var lines := ChangelogLines(raw);
            var r := GetChangelog(raw, parseDate);
            && (r.Success? <==> forall i :: 0 <= i < |lines| ==> ParseChange(lines[i], parseDate).Some?)
            && (r.Success? ==> (c in r.value <==>
                  (exists i :: 0 <= i < |lines| && ParseChange(lines[i], parseDate) == Some(c)) && !StartsWith(c.desc, "[ci]")))
  {
    var lines := ChangelogLines(raw);
    if ParseChanges(lines, parseDate).Success? {
      ParsedChangeMembers(lines, parseDate, c);
    }
  }

  /** Every entry kept links to its commit and is no `[ci]` entry. */
  lemma ChangelogLinks<D(!new)>(raw: string, parseDate: string -> D)
    ensures var r := GetChangelog(raw, parseDate);
            r.Success? ==> forall i :: 0 <= i < |r.value| ==>
              StartsWith(r.value[i].link, CommitBase) && r.value[i].link[|CommitBase|..] == r.value[i].ref
              && !StartsWith(r.value[i].desc, "[ci]")
  {
    var lines := ChangelogLines(raw);
    var p := ParseChanges(lines, parseDate);
    if p.Success? {
      var r := Filter(p.value, NotCi());
      forall i | 0 <= i < |r|
        ensures StartsWith(r[i].link, CommitBase) && r[i].link[|CommitBase|..] == r[i].ref
      {
        assert r[i] in p.value;
        ParsedChangeMembers(lines, parseDate, r[i]);
      }
    }
  }
}
