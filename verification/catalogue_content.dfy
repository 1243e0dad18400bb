/**
 * The catalogue's content types: ratings, the optional finished date, the four kinds
 * of entry (books, movies, games, shows) with the metadata read from the `_data.json`
 * file next to each entry, the author shown for each kind, and the lazy loader that
 * attaches metadata and cover to every entry of a source.
 */
module CatalogueContent {
  import opened Wrappers
  import opened Text
  import opened Calendar

  // ---------------------------------------------------------------- ratings

  datatype Rating = Masterpiece | Loved | Liked | Okay | Disliked | Hated

  /** The ratings in declaration order, best first. */
  const AllRatings: seq<Rating> := [Masterpiece, Loved, Liked, Okay, Disliked, Hated]

  /** `Rating::to_number`: 5 for a masterpiece down to 0 for a hated entry. */
  function ToNumber(r: Rating): (n: nat)
    ensures n <= 5
  {
    match r
    case Masterpiece => 5
    case Loved => 4
    case Liked => 3
    case Okay => 2
    case Disliked => 1
    case Hated => 0
  }

  /** Every rating is listed, once. */
  lemma AllRatingsComplete(r: Rating)
    ensures r in AllRatings
    ensures forall i, j :: 0 <= i < j < |AllRatings| ==> AllRatings[i] != AllRatings[j]
  {
  }

  /** A rating declared earlier (a better one) gets a strictly higher number; hence `ToNumber` is injective. */
  lemma ToNumberMonotone(i: int, j: int)
    requires 0 <= i < j < |AllRatings|
    ensures ToNumber(AllRatings[i]) > ToNumber(AllRatings[j])
  {
  }

  lemma ToNumberInjective(a: Rating, b: Rating)
    ensures ToNumber(a) == ToNumber(b) ==> a == b
  {
  }

  /** The serialized name of a rating: the variant name in lower case. */
  function RatingName(r: Rating): string
  {
    match r
    case Masterpiece => "masterpiece"
    case Loved => "loved"
    case Liked => "liked"
    case Okay => "okay"
    case Disliked => "disliked"
    case Hated => "hated"
  }

  /** Deserializing a rating: exactly the six lower-case names are accepted. */
  function ParseRating(s: string): (r: Option<Rating>)
    ensures r.Some? ==> RatingName(r.value) == s
  {
    if s == "masterpiece" then Some(Masterpiece)
    else if s == "loved" then Some(Loved)
    else if s == "liked" then Some(Liked)
    else if s == "okay" then Some(Okay)
    else if s == "disliked" then Some(Disliked)
    else if s == "hated" then Some(Hated)
    else None
  }

  lemma ParseRatingName(r: Rating)
    ensures ParseRating(RatingName(r)) == Some(r)
  {
  }

  datatype BookPlatform = Ebook | Physical | Audiobook

  function PlatformName(p: BookPlatform): string
  {
    match p
    case Ebook => "ebook"
    case Physical => "physical"
    case Audiobook => "audiobook"
  }

  /** Deserializing a book platform: only "ebook", "physical" and "audiobook". */
  function ParsePlatform(s: string): (r: Option<BookPlatform>)
    ensures r.Some? <==> s == "ebook" || s == "physical" || s == "audiobook"
    ensures r.Some? ==> PlatformName(r.value) == s
  {
    if s == "ebook" then Some(Ebook)
    else if s == "physical" then Some(Physical)
    else if s == "audiobook" then Some(Audiobook)
    else None
  }

  lemma ParsePlatformName(p: BookPlatform)
    ensures ParsePlatform(PlatformName(p)) == Some(p)
  {
  }

  // ---------------------------------------------------------------- dates

  /**
   * `deserialize_optional_date`: "N/A" means no date; anything else must parse as
   * `%Y-%m-%d` (the parser is a parameter) and a parse failure is a deserialization error.
   */
  function DeserializeOptionalDate(s: string, parseYmd: string -> Option<ValidDate>): (r: Result<Option<ValidDate>, string>)
    ensures s == "N/A" ==> r == Success(None)
    ensures s != "N/A" ==> (r.Success? <==> parseYmd(s).Some?)
    ensures s != "N/A" && r.Success? ==> r.value == parseYmd(s)
  {
    if s == "N/A" then Success(None)
    else
      match parseYmd(s)
      case Some(d) => Success(Some(d))
      case None => Failure("invalid date: " + s)
  }

  // ---------------------------------------------------------------- entries

  datatype Kind = Game | Movie | Show | Book

  /** A cover: the processed image's URL and its thumbhash placeholder in base64. */
  datatype Cover = Cover(url: string, placeholder: string)

  datatype GameCompany = GameCompany(id: nat, name: string, role: string)

  /** The fields of each kind's `_data.json` that the site reads. */
  datatype Metadata =
    | BookData(bookTitle: string, authors: seq<string>, publishers: seq<string>, pages: Option<nat>, publishDate: nat)
    | MovieData(movieTitle: string, tagline: Option<string>, movieId: nat, overview: Option<string>,
                releaseDate: string, runtime: Option<nat>, companies: seq<string>, genres: seq<string>)
    | GameData(firstReleaseDate: Option<nat>, gameGenres: seq<string>, platforms: seq<string>,
               gameCompanies: seq<GameCompany>)
    | ShowData(showTagline: Option<string>, showId: nat, showOverview: Option<string>,
               showCompanies: seq<string>, showGenres: seq<string>)

  /**
   * A catalogue entry after its frontmatter was read. `sourceId` is the ISBN, TMDB or
   * IGDB id; `platform` is only present for books. Metadata and cover start out unset.
   */
  datatype Entry = Entry(
    kind: Kind,
    title: string,
    rating: Rating,
    finishedDate: Option<ValidDate>,
    sourceId: string,
    platform: Option<BookPlatform>,
    metadata: Option<Metadata>,
    cover: Cover)

  /** `set_metadata`: stores the metadata and nothing else. */
  function SetMetadata(e: Entry, m: Metadata): (r: Entry)
    ensures GetMetadata(r) == Success(m)
    ensures r.(metadata := e.metadata) == e
  {
    e.(metadata := Some(m))
  }

  /** `get_metadata` unwraps the stored metadata: reading it before any set is a panic. */
  function GetMetadata(e: Entry): (r: Result<Metadata, string>)
    ensures r.Success? <==> e.metadata.Some?
    ensures r.Success? ==> e.metadata == Some(r.value)
  {
    match e.metadata
    case Some(m) => Success(m)
    case None => Failure("metadata read before it was set")
  }

  /** `set_cover`: replaces the cover pair and nothing else. */
  function SetCover(e: Entry, c: Cover): (r: Entry)
    ensures r.cover == c
    ensures r.(cover := e.cover) == e
  {
    e.(cover := c)
  }

  function First(s: seq<string>): (r: Option<string>)
    ensures r.Some? <==> |s| > 0
    ensures r.Some? ==> r.value == s[0]
  {
    if |s| == 0 then None else Some(s[0])
  }

  predicate IsDeveloper(c: GameCompany)
  {
    Lower(c.role) == "developer"
  }

  /** The index of the first company whose lower-cased role is "developer". */
  function FindDeveloper(cs: seq<GameCompany>): (r: Option<nat>)
    ensures r.Some? <==> exists i :: 0 <= i < |cs| && IsDeveloper(cs[i])
    ensures r.Some? ==> r.value < |cs| && IsDeveloper(cs[r.value])
    ensures r.Some? ==> forall j :: 0 <= j < r.value ==> !IsDeveloper(cs[j])
  {
    if |cs| == 0 then None
    else if IsDeveloper(cs[0]) then Some(0)
    else
      match FindDeveloper(cs[1..])
      case Some(i) => Some(i + 1)
      case None => None
  }

  /**
   * `get_author` for each kind of metadata. Books: the first author, else the first
   * publisher. Movies and shows: the first production company. Games: the first
   * developer, wherever it is in the company list.
   */
  function AuthorOf(m: Metadata): (r: Option<string>)
    ensures m.BookData? ==> r == (if |m.authors| > 0 then Some(m.authors[0]) else First(m.publishers))
    ensures m.MovieData? ==> r == First(m.companies)
    ensures m.ShowData? ==> r == First(m.showCompanies)
    ensures m.GameData? ==> (r.Some? <==> exists i :: 0 <= i < |m.gameCompanies| && IsDeveloper(m.gameCompanies[i]))
  {
    match m
    case BookData(_, authors, publishers, _, _) =>
      if |authors| > 0 then Some(authors[0]) else First(publishers)
    case MovieData(_, _, _, _, _, _, companies, _) => First(companies)
    case ShowData(_, _, _, companies, _) => First(companies)
    case GameData(_, _, _, companies) =>
      match FindDeveloper(companies)
      case Some(i) => Some(companies[i].name)
      case None => None
  }

  /** A game's author is the first developer's name even when other companies are listed before it. */
  lemma GameAuthorIsFirstDeveloper(m: Metadata, i: nat)
    requires m.GameData? && i < |m.gameCompanies| && IsDeveloper(m.gameCompanies[i])
    requires forall j :: 0 <= j < i ==> !IsDeveloper(m.gameCompanies[j])
    ensures AuthorOf(m) == Some(m.gameCompanies[i].name)
  {
    var r := FindDeveloper(m.gameCompanies);
    assert r.Some?;
    assert !IsDeveloper(m.gameCompanies[r.value]) || r.value >= i;
    assert r.value == i;
  }

  /** Each kind carries its own kind of metadata. */
  predicate MatchingMetadata(k: Kind, m: Metadata)
  {
    match k
    case Book => m.BookData?
    case Movie => m.MovieData?
    case Game => m.GameData?
    case Show => m.ShowData?
  }

  /** `get_author` of an entry: it reads the metadata first, so it panics when none was set. */
  function GetAuthor(e: Entry): (r: Result<Option<string>, string>)
    ensures r.Success? <==> e.metadata.Some?
    ensures r.Success? ==> r.value == AuthorOf(e.metadata.value)
  {
    var m :- GetMetadata(e);
    Success(AuthorOf(m))
  }

  // ---------------------------------------------------------------- loading

  /** A path as its directory components and file name. */
  datatype Path = Path(dirs: seq<string>, file: string)

  /** `Path::with_file_name`: the sibling file called `name`. */
  function WithFileName(p: Path, name: string): (r: Path)
    ensures r.dirs == p.dirs && r.file == name
  {
    Path(p.dirs, name)
  }

  /** An entry as the content loader lists it, before metadata is attached. */
  datatype SourceEntry = SourceEntry(id: string, filePath: Option<Path>, rawContent: Option<string>)

  /** The replacement entry: same id, a loader reading the siblings of `filePath`. */
  datatype LazyEntry = LazyEntry(id: string, filePath: Path, rawContent: string)

  /**
   * `catalogue_add_metadata`: one lazy entry per input entry, same id, same order. An
   * entry without a file path is a panic (`unwrap`); missing raw content becomes "".
   */
  function AddMetadata(entries: seq<SourceEntry>): (r: Result<seq<LazyEntry>, string>)
    ensures r.Success? <==> forall i :: 0 <= i < |entries| ==> entries[i].filePath.Some?
    ensures r.Success? ==> |r.value| == |entries|
    ensures r.Success? ==> forall i :: 0 <= i < |entries| ==>
      r.value[i].id == entries[i].id && Some(r.value[i].filePath) == entries[i].filePath
  {
    if |entries| == 0 then Success([])
    else
      var e := entries[0];
      match e.filePath
      case None => Failure("entry without a file path: " + e.id)
      case Some(p) =>
        match AddMetadata(entries[1..])
        case Failure(err) => Failure(err)
        case Success(rest) =>
          Success([LazyEntry(e.id, p, if e.rawContent.Some? then e.rawContent.value else "")] + rest)
  }

  /**
   * The loader an entry carries: parse the frontmatter, read `_data.json` next to the
   * file (a JSON error is a panic), attach it, then attach the cover made from the
   * sibling `cover.png`, whose path must canonicalize (a missing file is a panic). File
   * reading, JSON and frontmatter parsing and image processing are parameters;
   * `coverFor` gives `None` for a cover path that does not canonicalize.
   */
  function LoadEntry(
    le: LazyEntry,
    parseFront: string -> Result<Entry, string>,
    readMetadata: Path -> Result<Metadata, string>,
    coverFor: Path -> Option<Cover>): (r: Result<Entry, string>)
    ensures r.Success? <==>
      && parseFront(le.rawContent).Success?
      && readMetadata(WithFileName(le.filePath, "_data.json")).Success?
      && coverFor(WithFileName(le.filePath, "cover.png")).Some?
    ensures r.Success? ==>
      var front := parseFront(le.rawContent).value;
      && GetMetadata(r.value) == readMetadata(WithFileName(le.filePath, "_data.json"))
      && Some(r.value.cover) == coverFor(WithFileName(le.filePath, "cover.png"))
      && r.value.(metadata := front.metadata, cover := front.cover) == front
  {
    var front :- parseFront(le.rawContent);
    var m :- readMetadata(WithFileName(le.filePath, "_data.json"));
    var withMeta := SetMetadata(front, m);
    match coverFor(WithFileName(le.filePath, "cover.png"))
    case None => Failure("cover.png not found next to " + le.filePath.file)
    case Some(cover) => Success(SetCover(withMeta, cover))
  }

  /** A loaded entry always has its metadata, so its author can be read without a panic. */
  lemma LoadedHasAuthor(
    le: LazyEntry,
    parseFront: string -> Result<Entry, string>,
    readMetadata: Path -> Result<Metadata, string>,
    coverFor: Path -> Option<Cover>)
    requires LoadEntry(le, parseFront, readMetadata, coverFor).Success?
    ensures GetAuthor(LoadEntry(le, parseFront, readMetadata, coverFor).value).Success?
  {
  }
}
