/**
 * The catalogue "add" form and the four server handlers that accept it: the back-office
 * server's POST handler and three serverless `/add` functions (an API Gateway Lambda, a
 * lambda_http route and an older Vercel function). Each turns one submitted form into
 * one Markdown/Markdoc file committed to the site's repository.
 *
 * The repository is seen through the existence probe: `files` is the set of content
 * paths the probe reports present (a failed request reports absent). GitHub's reply to
 * the commit, the password hash and the slugifier are parameters.
 */
module CatalogueForm {
  import opened Wrappers
  import opened Text
  import opened Slugs
  import opened CatalogueContent
  import ClientStore

  // ---------------------------------------------------------------- type mapping

  /** The form's `type` value: movie, tv, game or book. */
  function FormKind(t: string): (r: Option<Kind>)
    ensures r.Some? <==> t == "movie" || t == "tv" || t == "game" || t == "book"
  {
    if t == "movie" then Some(Movie)
    else if t == "tv" then Some(Show)
    else if t == "game" then Some(Game)
    else if t == "book" then Some(Book)
    else None
  }

  /** The metadata source whose id the entry records. */
  function SourceKey(k: Kind): string
  {
    match k
    case Movie => "tmdb"
    case Show => "tmdb"
    case Game => "igdb"
    case Book => "isbn"
  }

  /** The content collection the entry is committed under. */
  function PathType(k: Kind): string
  {
    match k
    case Movie => "movies"
    case Show => "shows"
    case Game => "games"
    case Book => "books"
  }

  /** The back office's mapping: `(source key, path type)`, or nothing for an unknown type. */
  function TypeMapping(t: string): Option<(string, string)>
  {
    match FormKind(t)
    case None => None
    case Some(k) => Some((SourceKey(k), PathType(k)))
  }

  /** The serverless handlers' mapping: an unknown type falls back to "unknown" for both. */
  function MappingOrUnknown(t: string): (string, string)
  {
    TypeMapping(t).UnwrapOr(("unknown", "unknown"))
  }

  /**
   * Every known type is committed under the collection the browser's catalogue links
   * to, distinct types other than movie/tv keep distinct collections, and movie and tv
   * share the TMDB source key.
   */
  lemma PathTypeIsCollection(k: Kind, k': Kind)
    ensures PathType(k) == ClientStore.TypeName(k) + "s"
    ensures PathType(k) == PathType(k') ==> k == k'
    ensures SourceKey(k) == SourceKey(k') <==> k == k' || (k in {Movie, Show} && k' in {Movie, Show})
  {
  }

  /** The two mappings agree on known types, and only unknown types reach "unknown". */
  lemma MappingsAgree(t: string)
    ensures TypeMapping(t).Some? ==> MappingOrUnknown(t) == TypeMapping(t).value
    ensures MappingOrUnknown(t).1 == "unknown" <==> FormKind(t).None?
  {
  }

  // ---------------------------------------------------------------- the committed file

  /** The values the front matter is filled from. */
  datatype Fields = Fields(
    name: string, platform: string, rating: string, date: string,
    sourceKey: string, sourceId: string, comment: string)

  /** The platform line, present only for a non-empty platform. */
  function PlatformLine(platform: string): string
  {
    if platform == "" then "" else Line("platform: \"" + platform + "\"")
  }

  /** The format string every handler fills: front matter, a blank line, the comment. */
  function Markdown(f: Fields): string
  {
    Line("---") + (Line("title: \"" + f.name + "\"") + (PlatformLine(f.platform)
      + (Line("rating: \"" + f.rating + "\"") + (Line("finishedDate: " + f.date)
      + (Line(f.sourceKey + ": \"" + f.sourceId + "\"") + (Line("---") + (Line("")
      + Line(f.comment))))))))
  }

  /** The file line by line: title, the optional platform, rating, date and source id. */
  function MarkdownLines(f: Fields): (ls: seq<string>)
    ensures |ls| == (if f.platform == "" then 8 else 9)
  {
    ["---", "title: \"" + f.name + "\""]
      + (if f.platform == "" then [] else ["platform: \"" + f.platform + "\""])
      + TailLines(f)
  }

  /** The lines from the rating on. */
  function TailLines(f: Fields): seq<string>
  {
    ["rating: \"" + f.rating + "\"", "finishedDate: " + f.date,
     f.sourceKey + ": \"" + f.sourceId + "\"", "---", "", f.comment]
  }

  /** The file is exactly its lines, each ending with a newline. */
  lemma MarkdownJoinsLines(f: Fields)
    ensures Markdown(f) == Lines(MarkdownLines(f))
  {
    var title := "title: \"" + f.name + "\"";
    var tail := TailLines(f);
    TailJoinsLines(f);
    var a2 := tail;
    if f.platform != "" {
      a2 := ["platform: \"" + f.platform + "\""] + tail;
      LinesCons("platform: \"" + f.platform + "\"", tail);
    }
    assert Lines(a2) == PlatformLine(f.platform) + Lines(tail);
    LinesCons(title, a2);
    LinesCons("---", [title] + a2);
    assert MarkdownLines(f) == ["---"] + ([title] + a2);
  }

  lemma TailJoinsLines(f: Fields)
    ensures Lines(TailLines(f)) == Line("rating: \"" + f.rating + "\"") + (Line("finishedDate: " + f.date)
      + (Line(f.sourceKey + ": \"" + f.sourceId + "\"") + (Line("---") + (Line("") + Line(f.comment)))))
  {
    var t := TailLines(f);
    assert Lines([f.comment]) == Line(f.comment) + Lines([]) by {
      LinesCons(f.comment, []);
    }
    LinesCons("", t[5..]);
    assert t[4..] == [""] + t[5..];
    LinesCons("---", t[4..]);
    assert t[3..] == ["---"] + t[4..];
    LinesCons(t[2], t[3..]);
    assert t[2..] == [t[2]] + t[3..];
    LinesCons(t[1], t[2..]);
    assert t[1..] == [t[1]] + t[2..];
    LinesCons(t[0], t[1..]);
    assert t == [t[0]] + t[1..];
  }

  predicate OneLine(s: string)
  {
    '\n' !in s
  }

  lemma OneLineNoNewline(s: string)
    requires OneLine(s)
    ensures !Contains(s, "\n")
  {
    forall k: nat | k + 1 <= |s|
      ensures !OccursAt(s, "\n", k)
    {
      assert s[k..k + 1][0] == s[k];
    }
  }

  /**
   * Reading the file back line by line gives the fields in front-matter order, as long
   * as no field spans lines: the platform line is there exactly when a platform was given.
   */
  lemma MarkdownReadBack(f: Fields)
    requires OneLine(f.name) && OneLine(f.platform) && OneLine(f.rating) && OneLine(f.date)
    requires OneLine(f.sourceKey) && OneLine(f.sourceId) && OneLine(f.comment)
    ensures Split(Markdown(f), "\n") == MarkdownLines(f) + [""]
  {
    var ls := MarkdownLines(f);
    assert forall l :: l in ls ==> OneLine(l);
    forall i | 0 <= i < |ls|
      ensures !Contains(ls[i], "\n")
    {
      assert ls[i] in ls;
      OneLineNoNewline(ls[i]);
    }
    MarkdownJoinsLines(f);
    SplitLines(ls);
  }

  // ---------------------------------------------------------------- paths and slugs

  /** `{path_type}/{slug}/{slug}{ext}`, relative to the content root. */
  function FilePath(pathType: string, slug: string, ext: string): string
  {
    pathType + "/" + slug + "/" + slug + ext
  }

  /** The slug whose file `p` is, when `p` is the file of some slug of the collection. */
  function SlugOfPath(p: string, pathType: string, ext: string): (r: Option<string>)
    ensures r.Some? ==> FilePath(pathType, r.value, ext) == p
  {
    var fixed := |pathType| + 2 + |ext|;
    if |p| < fixed || (|p| - fixed) % 2 != 0 then None
    else
      var n := (|p| - fixed) / 2;
      var s := p[|pathType| + 1..|pathType| + 1 + n];
      if FilePath(pathType, s, ext) == p then Some(s) else None
  }

  lemma SlugOfFilePath(pathType: string, slug: string, ext: string)
    ensures SlugOfPath(FilePath(pathType, slug, ext), pathType, ext) == Some(slug)
  {
    var p := FilePath(pathType, slug, ext);
    assert p[|pathType| + 1..|pathType| + 1 + |slug|] == slug;
  }

  /** The slugs of a collection whose file the probe reports present. */
  function TakenSlugs(files: set<string>, pathType: string, ext: string): set<string>
  {
    set p | p in files && SlugOfPath(p, pathType, ext).Some? :: SlugOfPath(p, pathType, ext).value
  }

  lemma TakenSlugsIff(files: set<string>, pathType: string, ext: string, slug: string)
    ensures slug in TakenSlugs(files, pathType, ext) <==> FilePath(pathType, slug, ext) in files
  {
    SlugOfFilePath(pathType, slug, ext);
    if FilePath(pathType, slug, ext) in files {
      assert SlugOfPath(FilePath(pathType, slug, ext), pathType, ext).value == slug;
    }
  }

  /**
   * The probing loop's slug, seen on the files: its file is absent, and the file of
   * every candidate tried before it is present.
   */
  lemma ProbedSlugIsFree(files: set<string>, pathType: string, ext: string, base: string)
    ensures FilePath(pathType, Disambiguate(base, TakenSlugs(files, pathType, ext)), ext) !in files
    ensures exists n: nat ::
      && Disambiguate(base, TakenSlugs(files, pathType, ext)) == Candidate(base, n)
      && (forall j :: 0 <= j < n ==> FilePath(pathType, Candidate(base, j), ext) in files)
  {
    var taken := TakenSlugs(files, pathType, ext);
    var slug := Disambiguate(base, taken);
    TakenSlugsIff(files, pathType, ext, slug);
    var n: nat :| n <= |taken| && slug == Candidate(base, n)
      && (forall j :: 0 <= j < n ==> Candidate(base, j) in taken);
    forall j | 0 <= j < n
      ensures FilePath(pathType, Candidate(base, j), ext) in files
    {
      TakenSlugsIff(files, pathType, ext, Candidate(base, j));
    }
  }

  /** The commit message; the back office always uses the "[auto]" marker. */
  function CommitMessage(title: string, skipCi: bool): string
  {
    "content(catalogue): Add " + title + " " + (if skipCi then "[skip ci]" else "[auto]")
  }

  /** The marker is "[skip ci]" exactly when CI is skipped, and "[auto]" otherwise. */
  lemma CommitMessageMarker(title: string, skipCi: bool)
    ensures EndsWith(CommitMessage(title, skipCi), " [skip ci]") <==> skipCi
    ensures EndsWith(CommitMessage(title, skipCi), " [auto]") <==> !skipCi
    ensures StartsWith(CommitMessage(title, skipCi), "content(catalogue): Add " + title + " ")
  {
    var m := CommitMessage(title, skipCi);
    assert m[|m| - 2] == (if skipCi then 'i' else 'o');
  }

  /** A file to create in the repository, relative to the content root. */
  datatype Commit = Commit(path: string, content: string, message: string)

  // ---------------------------------------------------------------- replies

  datatype Cookie = Cookie(name: string, value: string, path: string, lifetimeDays: nat)

  datatype Page =
    | EntryForm                          // the add form
    | LoginForm(error: Option<string>)
    | CookieSet(cookie: Cookie)          // an immediate refresh carrying `Set-Cookie`
    | Added(commitUrl: string)
    | Failed                             // "Failed", with GitHub's raw reply
    | AdminForm(error: Option<string>)   // the back office's add form
    | AdminAdded(commitUrl: string, catalogueLink: string)
    | Message(text: string)
    | NoBody

  datatype Reply = Reply(status: nat, page: Page)

  /**
   * What a request leads to: the reply, or `None` when the handler panics or fails
   * before replying, and the commit it pushed, if any.
   */
  datatype Outcome = Outcome(reply: Option<Reply>, commit: Option<Commit>)

  function Respond(status: nat, page: Page): Outcome
  {
    Outcome(Some(Reply(status, page)), None)
  }

  // ---------------------------------------------------------------- the back office

  datatype AdminEntry = AdminEntry(
    kind: string, name: string, rating: string, date: string, sourceId: string,
    platformSelect: string, comment: string, formPassword: string)

  /** `FORM_PASSWORD`, defaulting to "password". */
  function AdminPassword(env: Option<string>): string
  {
    env.UnwrapOr("password")
  }

  /** The file the back office commits for a well-typed entry. */
  function AdminCommit(e: AdminEntry, k: Kind, slugify: string -> string, files: set<string>): Commit
  {
    var slug := Disambiguate(slugify(e.name), TakenSlugs(files, PathType(k), ".md"));
    Commit(
      FilePath(PathType(k), slug, ".md"),
      Markdown(Fields(e.name, e.platformSelect, e.rating, e.date, SourceKey(k), e.sourceId, e.comment)),
      CommitMessage(e.name, false))
  }

  /** `catalogue_add_post_handler`. `github` answers a commit with its URL or an error. */
  function AdminSubmit(
    e: AdminEntry, passwordEnv: Option<string>, slugify: string -> string,
    files: set<string>, github: Commit -> Result<string, string>): Outcome
  {
    if e.formPassword != AdminPassword(passwordEnv) then
      Respond(401, AdminForm(Some("Invalid password")))
    else
      match FormKind(e.kind)
      case None => Respond(400, AdminForm(Some("Invalid type")))
      case Some(k) =>
        var c := AdminCommit(e, k, slugify, files);
        match github(c)
        case Success(url) => Outcome(Some(Reply(200, AdminAdded(url, "/catalogue/" + PathType(k)))), Some(c))
        case Failure(err) =>
          Outcome(Some(Reply(500, AdminForm(Some("Failed to create GitHub commit: " + err)))), Some(c))
  }

  /**
   * The password is checked first and exactly (case matters): a mismatch is 401 and
   * nothing is committed, whatever the type; with the right password an unknown type is
   * 400 "Invalid type".
   */
  lemma AdminGates(
    e: AdminEntry, passwordEnv: Option<string>, slugify: string -> string,
    files: set<string>, github: Commit -> Result<string, string>)
    ensures var o := AdminSubmit(e, passwordEnv, slugify, files, github);
      && (e.formPassword != AdminPassword(passwordEnv) ==>
            o == Outcome(Some(Reply(401, AdminForm(Some("Invalid password")))), None))
      && (e.formPassword == AdminPassword(passwordEnv) && FormKind(e.kind).None? ==>
            o == Outcome(Some(Reply(400, AdminForm(Some("Invalid type")))), None))
      && (o.commit.Some? <==> e.formPassword == AdminPassword(passwordEnv) && FormKind(e.kind).Some?)
    ensures passwordEnv.None? ==> AdminPassword(passwordEnv) == "password"
  {
  }

  /**
   * An accepted entry is committed as `{path_type}/{slug}/{slug}.md`, the same file the
   * probe checked: absent, with every earlier candidate present. The file holds the
   * front matter in order and the message carries "[auto]".
   */
  lemma AdminCommitted(
    e: AdminEntry, passwordEnv: Option<string>, slugify: string -> string,
    files: set<string>, github: Commit -> Result<string, string>)
    requires e.formPassword == AdminPassword(passwordEnv) && FormKind(e.kind).Some?
    ensures var k := FormKind(e.kind).value;
      var o := AdminSubmit(e, passwordEnv, slugify, files, github);
      var c := o.commit.value;
      && o.commit.Some?
      && c.path !in files
      && (exists slug :: c.path == FilePath(PathType(k), slug, ".md")
            && slug == Disambiguate(slugify(e.name), TakenSlugs(files, PathType(k), ".md")))
      && c.content == Markdown(Fields(e.name, e.platformSelect, e.rating, e.date, SourceKey(k), e.sourceId, e.comment))
      && c.message == "content(catalogue): Add " + e.name + " [auto]"
      && (github(c).Success? ==> o.reply == Some(Reply(200, AdminAdded(github(c).value, "/catalogue/" + PathType(k)))))
      && (github(c).Failure? ==> o.reply.value.status == 500)
  {
    var k := FormKind(e.kind).value;
    var c := AdminCommit(e, k, slugify, files);
    AdminSubmitAccepted(e, passwordEnv, slugify, files, github, k);
    ProbedSlugIsFree(files, PathType(k), ".md", slugify(e.name));
    AutoMessage(e.name);
  }

  /** With the right password and a known type, the handler commits `AdminCommit` and answers by GitHub's outcome. */
  lemma AdminSubmitAccepted(
    e: AdminEntry, passwordEnv: Option<string>, slugify: string -> string,
    files: set<string>, github: Commit -> Result<string, string>, k: Kind)
    requires e.formPassword == AdminPassword(passwordEnv) && FormKind(e.kind) == Some(k)
    ensures var o := AdminSubmit(e, passwordEnv, slugify, files, github);
      var c := AdminCommit(e, k, slugify, files);
      && o.commit == Some(c)
      && (github(c).Success? ==> o.reply == Some(Reply(200, AdminAdded(github(c).value, "/catalogue/" + PathType(k)))))
      && (github(c).Failure? ==> o.reply.Some? && o.reply.value.status == 500)
  {
  }

  lemma AutoMessage(title: string)
    ensures CommitMessage(title, false) == "content(catalogue): Add " + title + " [auto]"
  {
  }

  // ---------------------------------------------------------------- the serverless handlers

  datatype Variant = ApiGateway | LambdaHttp | Vercel

  datatype Method = Get | Post | OtherMethod

  /**
   * A request: the cookie's value, the `x-proxy-source` header, the url-encoded body and
   * the query string (`None` when there is none).
   */
  datatype Request = Request(
    verb: Method, cookie: Option<string>, proxySource: Option<string>,
    form: map<string, string>, query: Option<map<string, string>>)

  /** `HASHED_PASSWORD` (the hex SHA-256 of the login password) and `FORM_PASSWORD`. */
  datatype Secrets = Secrets(storedHash: string, formPassword: string)

  function Field(form: map<string, string>, key: string): Option<string>
  {
    if key in form then Some(form[key]) else None
  }

  /** Where each deployment scopes its login cookie. */
  function CookiePath(v: Variant): string
  {
    match v
    case ApiGateway => "/.netlify/functions/add"
    case LambdaHttp => "/add"
    case Vercel => "/api/add"
  }

  /** `manage_login`; `sha256Hex` is the hex digest of a password. */
  function ManageLogin(v: Variant, req: Request, storedHash: string, sha256Hex: string -> string): Outcome
  {
    match req.verb
    case Get => Respond(401, LoginForm(None))
    case Post =>
      if "password" in req.form then
        var hashed := sha256Hex(req.form["password"]);
        if hashed == storedHash then Respond(200, CookieSet(Cookie("password", hashed, CookiePath(v), 30)))
        else Respond(401, LoginForm(Some("Invalid password")))
      else Respond(401, LoginForm(Some("Invalid form")))
    case OtherMethod => Respond(401, LoginForm(Some("Invalid request")))
  }

  /** The form's confirmation password, compared after lower-casing both sides. */
  predicate FormPasswordMatches(form: map<string, string>, formPassword: string)
  {
    "form_password" in form && Lower(form["form_password"]) == Lower(formPassword)
  }

  /**
   * The file a submitted form commits, or `None` when a field the handler unwraps is
   * missing. The two newer handlers use the date only when the `no-date` checkbox is
   * "on" (otherwise "N/A") and probe for a free slug; the Vercel one always uses the date
   * and the bare slug.
   */
  function EntryCommit(v: Variant, form: map<string, string>, slugify: string -> string, files: set<string>)
    : Option<Commit>
  {
    if !("type" in form && "name" in form && "comment" in form && "rating" in form && "source-id" in form) then None
    else
      var (sourceKey, pathType) := MappingOrUnknown(form["type"]);
      var dated := v == Vercel || Field(form, "no-date") == Some("on");
      if dated && "date" !in form then None
      else
        var date := if dated then form["date"] else "N/A";
        var base := slugify(form["name"]);
        var slug := if v == Vercel then base else Disambiguate(base, TakenSlugs(files, pathType, ".mdoc"));
        Some(Commit(
          FilePath(pathType, slug, ".mdoc"),
          Markdown(Fields(form["name"], Field(form, "platform-select").UnwrapOr(""), form["rating"], date,
                          sourceKey, form["source-id"], form["comment"])),
          CommitMessage(form["name"], Field(form, "skip-ci") == Some("skip-ci"))))
  }

  /** The POST branch once the cookie is accepted. `github` yields the commit's `html_url`, if any. */
  function SubmitEntry(
    v: Variant, form: map<string, string>, formPassword: string, slugify: string -> string,
    files: set<string>, github: Commit -> Option<string>): Outcome
  {
    if !FormPasswordMatches(form, formPassword) then
      Respond(401, if v == Vercel then NoBody else LoginForm(Some("Invalid password")))
    else
      match EntryCommit(v, form, slugify, files)
      case None => Outcome(None, None)
      case Some(c) =>
        match github(c)
        case Some(url) => Outcome(Some(Reply(200, Added(url))), Some(c))
        case None => if v == Vercel then Outcome(None, Some(c)) else Outcome(Some(Reply(200, Failed)), Some(c))
  }

  /** The sources each deployment proxies searches to. */
  function Proxied(v: Variant): set<string>
  {
    if v == Vercel then {"tmdb", "igdb"} else {"tmdb", "igdb", "isbn"}
  }

  /** The search text sent upstream; Open Library gets spaces as `+`. */
  function UpstreamQuery(source: string, query: string): string
  {
    if source == "isbn" then ReplaceChars(query, {' '}, '+') else query
  }

  /**
   * `proxy_request`. `fetch(source, query, type)` is the upstream's response body. The
   * newer handlers unwrap `query` and `type`; the Vercel one answers 400 without a query
   * string and fails to parse one lacking either parameter.
   */
  function Proxy(v: Variant, source: string, query: Option<map<string, string>>,
                 fetch: (string, string, string) -> string): Outcome
  {
    if v == Vercel && query.None? then Respond(400, NoBody)
    else
      var q := query.UnwrapOr(map[]);
      if !("query" in q && "type" in q) then Outcome(None, None)
      else if source in Proxied(v) then Respond(200, Message(fetch(source, UpstreamQuery(source, q["query"]), q["type"])))
      else Respond(400, if v == Vercel then NoBody else Message("Invalid source"))
  }

  /** A serverless `/add` handler. */
  function Handle(
    v: Variant, req: Request, secrets: Secrets, sha256Hex: string -> string, slugify: string -> string,
    files: set<string>, github: Commit -> Option<string>, fetch: (string, string, string) -> string): Outcome
  {
    if req.cookie != Some(secrets.storedHash) then ManageLogin(v, req, secrets.storedHash, sha256Hex)
    else if req.proxySource.Some? then Proxy(v, req.proxySource.value, req.query, fetch)
    else
      match req.verb
      case Get => Respond(200, EntryForm)
      case Post => SubmitEntry(v, req.form, secrets.formPassword, slugify, files, github)
      case OtherMethod => Respond(404, if v == Vercel then NoBody else Message("Not found"))
  }

  /**
   * Without the right cookie nothing is committed: the reply is 401 except for a login
   * whose password hashes to the stored hash, which gets a 30-day cookie carrying that
   * hash, scoped to the deployment's path.
   */
  lemma LoginGate(
    v: Variant, req: Request, secrets: Secrets, sha256Hex: string -> string, slugify: string -> string,
    files: set<string>, github: Commit -> Option<string>, fetch: (string, string, string) -> string)
    requires req.cookie != Some(secrets.storedHash)
    ensures var o := Handle(v, req, secrets, sha256Hex, slugify, files, github, fetch);
      && o.commit.None? && o.reply.Some?
      && (o.reply.value.status == 200 <==>
            req.verb == Post && "password" in req.form && sha256Hex(req.form["password"]) == secrets.storedHash)
      && (o.reply.value.status == 200 ==>
            o.reply.value.page == CookieSet(Cookie("password", secrets.storedHash, CookiePath(v), 30)))
      && (o.reply.value.status != 200 ==> o.reply.value.status == 401 && o.reply.value.page.LoginForm?)
  {
  }

  /**
   * Logged in, a POST whose confirmation password is missing or differs beyond case is
   * 401 with nothing committed; case alone never matters.
   */
  lemma FormPasswordGate(
    v: Variant, form: map<string, string>, p1: string, p2: string, slugify: string -> string,
    files: set<string>, github: Commit -> Option<string>)
    ensures !FormPasswordMatches(form, p1) ==>
      var o := SubmitEntry(v, form, p1, slugify, files, github);
      o.commit.None? && o.reply.Some? && o.reply.value.status == 401
    ensures Lower(p1) == Lower(p2) ==>
      SubmitEntry(v, form, p1, slugify, files, github) == SubmitEntry(v, form, p2, slugify, files, github)
  {
  }

  /**
   * A complete form from the two newer handlers is committed under the mapped
   * collection as a `.mdoc` file that did not exist, the slug being the first free
   * candidate; the date is used only with `no-date` "on", and the message says
   * "[skip ci]" exactly when `skip-ci` is "skip-ci".
   */
  lemma EntryCommitted(v: Variant, form: map<string, string>, slugify: string -> string, files: set<string>)
    requires v != Vercel
    requires "type" in form && "name" in form && "comment" in form && "rating" in form && "source-id" in form
    requires Field(form, "no-date") == Some("on") ==> "date" in form
    ensures var c := EntryCommit(v, form, slugify, files);
      var pathType := MappingOrUnknown(form["type"]).1;
      && c.Some?
      && c.value.path !in files
      && (exists slug :: c.value.path == FilePath(pathType, slug, ".mdoc")
            && slug == Disambiguate(slugify(form["name"]), TakenSlugs(files, pathType, ".mdoc")))
      && c.value.content == Markdown(Fields(
           form["name"], Field(form, "platform-select").UnwrapOr(""), form["rating"],
           if Field(form, "no-date") == Some("on") then form["date"] else "N/A",
           MappingOrUnknown(form["type"]).0, form["source-id"], form["comment"]))
      && c.value.message == CommitMessage(form["name"], Field(form, "skip-ci") == Some("skip-ci"))
  {
    var pathType := MappingOrUnknown(form["type"]).1;
    ProbedSlugIsFree(files, pathType, ".mdoc", slugify(form["name"]));
  }

  /**
   * The Vercel handler never probes: it commits to `{path_type}/{slug}/{slug}.mdoc` for
   * the bare slug whatever exists, so an existing entry's file is the target.
   */
  lemma VercelOverwrites(form: map<string, string>, slugify: string -> string, files: set<string>)
    requires "type" in form && "name" in form && "comment" in form && "rating" in form && "source-id" in form
    requires "date" in form
    ensures var c := EntryCommit(Vercel, form, slugify, files);
      && c.Some?
      && c.value.path == FilePath(MappingOrUnknown(form["type"]).1, slugify(form["name"]), ".mdoc")
      && c == EntryCommit(Vercel, form, slugify, {})
      && Markdown(Fields(
           form["name"], Field(form, "platform-select").UnwrapOr(""), form["rating"], form["date"],
           MappingOrUnknown(form["type"]).0, form["source-id"], form["comment"])) == c.value.content
  {
  }

  /**
   * After the commit, a reply without a commit URL is still status 200 with the
   * "Failed" page in the newer handlers; the Vercel handler panics after committing.
   * A form missing `type` panics before anything is committed.
   */
  lemma CommitReplies(
    v: Variant, form: map<string, string>, formPassword: string, slugify: string -> string,
    files: set<string>, github: Commit -> Option<string>)
    requires FormPasswordMatches(form, formPassword)
    ensures var o := SubmitEntry(v, form, formPassword, slugify, files, github);
      && ("type" !in form ==> o == Outcome(None, None))
      && (o.commit.Some? <==> EntryCommit(v, form, slugify, files).Some?)
      && (o.commit.Some? && github(o.commit.value).None? ==>
            if v == Vercel then o.reply.None? else o.reply == Some(Reply(200, Failed)))
      && (o.commit.Some? && github(o.commit.value).Some? ==>
            o.reply == Some(Reply(200, Added(github(o.commit.value).value))))
  {
  }

  /**
   * Logged in, without a proxy header: GET serves the form, any method other than GET
   * and POST is 404, and only POST can commit.
   */
  lemma MethodDispatch(
    v: Variant, req: Request, secrets: Secrets, sha256Hex: string -> string, slugify: string -> string,
    files: set<string>, github: Commit -> Option<string>, fetch: (string, string, string) -> string)
    requires req.cookie == Some(secrets.storedHash) && req.proxySource.None?
    ensures var o := Handle(v, req, secrets, sha256Hex, slugify, files, github, fetch);
      && (req.verb == Get ==> o == Outcome(Some(Reply(200, EntryForm)), None))
      && (req.verb == OtherMethod ==> o.reply.value.status == 404 && o.commit.None?)
      && (o.commit.Some? ==> req.verb == Post)
  {
  }

  /**
   * The proxy never commits; an unsupported source is 400, and so is a Vercel request
   * without a query string. The Vercel handler has no book source.
   */
  lemma ProxyGuards(v: Variant, source: string, query: Option<map<string, string>>,
                    fetch: (string, string, string) -> string)
    ensures Proxy(v, source, query, fetch).commit.None?
    ensures v == Vercel && query.None? ==> Proxy(v, source, query, fetch) == Respond(400, NoBody)
    ensures var q := query.UnwrapOr(map[]);
      (v != Vercel || query.Some?) && "query" in q && "type" in q ==>
        (Proxy(v, source, query, fetch).reply.value.status == 200 <==> source in Proxied(v))
    ensures "isbn" in Proxied(v) <==> v != Vercel
  {
  }
}
