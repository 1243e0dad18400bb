/**
 * The two catalogue endpoints of the Astro site. `content.json` lists every entry (games,
 * then movies, shows and books) with its processed cover, its numeric rating, its author
 * and, when known, the time it was finished, under a version hash of the content.
 * `llms.txt` lists the entries as plain text, one section per type. Entry metadata is
 * untyped JSON there, read with JavaScript's optional chaining and nullish coalescing.
 */
module CatalogueFeed {
  import opened Wrappers
  import opened Seqs
  import opened Text
  import opened Json
  import opened CatalogueContent
  import ClientStore

  /** The version the content hash is salted with. */
  const Version: int := 1

  /** A finished date: `"N/A"`, or a date as its `getTime()`. */
  datatype Finished = NotApplicable | FinishedAt(time: int)

  /** A collection entry as the endpoints read it; `metadata` is `undefined` when `None`. */
  datatype FeedEntry = FeedEntry(
    id: string,
    kind: Kind,
    title: string,
    rating: Rating,
    finished: Finished,
    cover: string,
    metadata: Option<Json>)

  // ---------------------------------------------------------------- property access

  /** `undefined` or `null`. */
  predicate Nullish(o: Option<Json>)
  {
    o.None? || o.value.JNull?
  }

  /** `o?.seg`: `undefined` on a nullish value. */
  function OptionalStep(o: Option<Json>, seg: string): (r: Option<Json>)
    ensures Nullish(o) ==> r.None?
    ensures !Nullish(o) ==> r == Step(o.value, seg)
  {
    if Nullish(o) then None else Step(o.value, seg)
  }

  /** The error reading property `seg` of a nullish value throws. */
  function TypeError(seg: string): string
  {
    "TypeError: cannot read property '" + seg + "' of a nullish value"
  }

  /** `o ?? d`. */
  function Coalesce(o: Option<Json>, d: Json): (r: Json)
    ensures !Nullish(o) ==> r == o.value
    ensures Nullish(o) ==> r == d
  {
    if Nullish(o) then d else o.value
  }

  const Unknown: Json := JStr("Unknown")

  // ---------------------------------------------------------------- content.json

  /**
   * `getAuthorFromEntryMetadata`. A game: the first company's name; a book: the first
   * author, else the first publisher, reading both lists without optional chaining on
   * the metadata; a movie or show: the first company; `"Unknown"` when that is nullish.
   */
  function AuthorOf(kind: Kind, metadata: Option<Json>): (r: Result<Json, string>)
    ensures kind != Book ==> r.Success?
    ensures r.Success? ==> r.value != JNull
  {
    match kind
    case Game => Success(Coalesce(OptionalStep(OptionalStep(OptionalStep(metadata, "companies"), "0"), "name"), Unknown))
    case Movie => Success(Coalesce(OptionalStep(OptionalStep(metadata, "companies"), "0"), Unknown))
    case Show => Success(Coalesce(OptionalStep(OptionalStep(metadata, "companies"), "0"), Unknown))
    case Book =>
      if Nullish(metadata) then Failure(TypeError("authors"))
      else
        var first := OptionalStep(Step(metadata.value, "authors"), "0");
        if !Nullish(first) then Success(first.value)
        else
          var publishers := Step(metadata.value, "publishers");
          if Nullish(publishers) then Failure(TypeError("0"))
          else Success(Coalesce(Step(publishers.value, "0"), Unknown))
  }

  /** The members of one entry of `content`; `finishedDate` only for a finished entry. */
  function EntryMembers(e: FeedEntry, author: Json, coverSrc: string, placeholder: string): seq<(string, Json)>
  {
    [("id", JStr(e.id)), ("cover", JStr(coverSrc)), ("placeholder", JStr(placeholder)),
     ("type", JStr(ClientStore.TypeName(e.kind))), ("title", JStr(e.title)),
     ("rating", JNum(ToNumber(e.rating))), ("author", author)]
    + (if e.finished.NotApplicable? then [] else [("finishedDate", JNum(e.finished.time))])
  }

  /** One entry of `content`; the processed cover URL and the placeholder come from the image service. */
  function EntryJson(e: FeedEntry, coverSrc: string -> string, placeholder: string -> string): (r: Result<Json, string>)
    ensures r.Success? <==> AuthorOf(e.kind, e.metadata).Success?
  {
    var author :- AuthorOf(e.kind, e.metadata);
    Success(JObj(EntryMembers(e, author, coverSrc(e.cover), placeholder(e.cover))))
  }

  /** `Promise.all` over the entries: it rejects when any entry does. */
  function EntriesJson(es: seq<FeedEntry>, coverSrc: string -> string, placeholder: string -> string)
    : (r: Result<seq<Json>, string>)
    ensures r.Failure? <==> exists i :: 0 <= i < |es| && EntryJson(es[i], coverSrc, placeholder).Failure?
    ensures r.Success? ==> |r.value| == |es|
    ensures r.Success? ==> forall i :: 0 <= i < |es| ==> r.value[i] == EntryJson(es[i], coverSrc, placeholder).value
    decreases |es|
  {
    if |es| == 0 then Success([])
    else
      var head := EntryJson(es[0], coverSrc, placeholder);
      var rest := EntriesJson(es[1..], coverSrc, placeholder);
      assert forall i :: 1 <= i < |es| ==> es[i] == es[1..][i - 1];
      if head.Failure? then Failure(head.error)
      else if rest.Failure? then Failure(rest.error)
      else Success([head.value] + rest.value)
  }

  /** `catalogueContent`: the four collections in a fixed order. */
  function CatalogueContentOf(games: seq<FeedEntry>, movies: seq<FeedEntry>, shows: seq<FeedEntry>, books: seq<FeedEntry>)
    : (r: seq<FeedEntry>)
    ensures |r| == |games| + |movies| + |shows| + |books|
    ensures r[..|games|] == games && r[|games|..|games| + |movies|] == movies
    ensures r[|games| + |movies|..|games| + |movies| + |shows|] == shows && r[|r| - |books|..] == books
  {
    games + movies + shows + books
  }

  /** The response body of `content.json`; `hash` is the deterministic object hash of `[VERSION, content]`. */
  function Payload(games: seq<FeedEntry>, movies: seq<FeedEntry>, shows: seq<FeedEntry>, books: seq<FeedEntry>,
                   hash: (int, seq<FeedEntry>) -> string, coverSrc: string -> string, placeholder: string -> string)
    : (r: Result<Json, string>)
    ensures var c := CatalogueContentOf(games, movies, shows, books);
            r.Success? <==> EntriesJson(c, coverSrc, placeholder).Success?
    ensures var c := CatalogueContentOf(games, movies, shows, books);
            r.Success? ==> && r.value.JObj? && Keys(r.value.members) == ["version", "content"]
                           && r.value.members[0].1 == JStr(hash(Version, c))
                           && r.value.members[1].1.JArr? && |r.value.members[1].1.items| == |c|
                           && forall i :: 0 <= i < |c| ==> r.value.members[1].1.items[i] == EntryJson(c[i], coverSrc, placeholder).value
  {
    var content := CatalogueContentOf(games, movies, shows, books);
    var items :- EntriesJson(content, coverSrc, placeholder);
    Success(JObj([("version", JStr(hash(Version, content))), ("content", JArr(items))]))
  }

  // ---------------------------------------------------------------- llms.txt

  function TypeOf(e: FeedEntry): string
  {
    ClientStore.TypeName(e.kind)
  }

  /** `${title} ${rating}`. */
  function LlmsLine(e: FeedEntry): string
  {
    e.title + " " + RatingName(e.rating)
  }

  function LlmsLines(es: seq<FeedEntry>): (r: seq<string>)
    ensures |r| == |es| && forall i :: 0 <= i < |es| ==> r[i] == LlmsLine(es[i])
  {
    seq(|es|, i requires 0 <= i < |es| => LlmsLine(es[i]))
  }

  function TypeList(es: seq<FeedEntry>): (r: seq<string>)
    ensures |r| == |es| && forall i :: 0 <= i < |es| ==> r[i] == TypeOf(es[i])
  {
    seq(|es|, i requires 0 <= i < |es| => TypeOf(es[i]))
  }

  /** The keys of `grouped`, in insertion order: each type at its first occurrence. */
  function LlmsTypes(es: seq<FeedEntry>): seq<string>
  {
    Dedup(TypeList(es))
  }

  /** The entries of `grouped`, one group per type. */
  function LlmsGroups(es: seq<FeedEntry>): seq<seq<FeedEntry>>
  {
    GroupsBy(es, TypeOf, LlmsTypes(es))
  }

  /** The sections: the type name, a newline, the group's lines one per line. */
  function LlmsSections(es: seq<FeedEntry>): (r: seq<string>)
    ensures |r| == |LlmsTypes(es)|
    ensures forall i :: 0 <= i < |r| ==>
              r[i] == LlmsTypes(es)[i] + "\n" + Join(LlmsLines(LlmsGroups(es)[i]), "\n")
  {
    var ts := LlmsTypes(es);
    var gs := LlmsGroups(es);
    seq(|ts|, i requires 0 <= i < |ts| => ts[i] + "\n" + Join(LlmsLines(gs[i]), "\n"))
  }

  /** The response body of `llms.txt`. */
  function LlmsText(es: seq<FeedEntry>): string
  {
    Join(LlmsSections(es), "\n\n")
  }

  // ---------------------------------------------------------------- the author fields of `_data.json`

  function Strings(xs: seq<string>): (r: seq<Json>)
    ensures |r| == |xs| && forall i :: 0 <= i < |xs| ==> r[i] == JStr(xs[i])
  {
    seq(|xs|, i requires 0 <= i < |xs| => JStr(xs[i]))
  }

  function Companies(cs: seq<GameCompany>): (r: seq<Json>)
    ensures |r| == |cs| && forall i :: 0 <= i < |cs| ==> r[i] == JObj([("name", JStr(cs[i].name)), ("role", JStr(cs[i].role))])
  {
    seq(|cs|, i requires 0 <= i < |cs| => JObj([("name", JStr(cs[i].name)), ("role", JStr(cs[i].role))]))
  }

  /** The members of a metadata file that an author is chosen from, as the JSON the site reads. */
  function MetadataJson(m: Metadata): Json
  {
    match m
    case BookData(_, authors, publishers, _, _) => JObj([("authors", JArr(Strings(authors))), ("publishers", JArr(Strings(publishers)))])
    case MovieData(_, _, _, _, _, _, companies, _) => JObj([("companies", JArr(Strings(companies)))])
    case ShowData(_, _, _, companies, _) => JObj([("companies", JArr(Strings(companies)))])
    case GameData(_, _, _, companies) => JObj([("companies", JArr(Companies(companies)))])
  }

  // ---------------------------------------------------------------- properties

  /** `"0"` reads the first element of an array, and nothing from an empty one. */
  lemma StepFirst(items: seq<Json>)
    ensures |items| > 0 ==> Step(JArr(items), "0") == Some(items[0])
    ensures |items| == 0 ==> Step(JArr(items), "0") == None
  {
    assert NatToString(0) == "0";
    NatToStringValue(0);
    assert ValueOf("0", 10) == 0 by {
      assert "0"[..0] == "";
    }
  }

  /**
   * For books, movies and shows with well-formed metadata the endpoint names the same
   * author as the Rust site's `get_author`, and "Unknown" where that finds none.
   */
  lemma AuthorAgreesWithRust(k: Kind, m: Metadata)
    requires MatchingMetadata(k, m) && k != Game
    ensures var rust := CatalogueContent.AuthorOf(m);
            AuthorOf(k, Some(MetadataJson(m))) == Success(if rust.Some? then JStr(rust.value) else Unknown)
  {
    match m
    case BookData(_, authors, publishers, _, _) =>
      BookAuthorAgrees(authors, publishers);
    case MovieData(_, _, _, _, _, _, companies, _) =>
      StepFirst(Strings(companies));
    case ShowData(_, _, _, companies, _) =>
      StepFirst(Strings(companies));
  }

  lemma BookAuthorAgrees(authors: seq<string>, publishers: seq<string>)
    ensures var j := JObj([("authors", JArr(Strings(authors))), ("publishers", JArr(Strings(publishers)))]);
            AuthorOf(Book, Some(j)) == Success(if |authors| > 0 then JStr(authors[0])
                                               else if |publishers| > 0 then JStr(publishers[0]) else Unknown)
  {
    var ms := [("authors", JArr(Strings(authors))), ("publishers", JArr(Strings(publishers)))];
    assert UniqueKeys(ms);
    MemberAt(ms, 0);
    MemberAt(ms, 1);
    StepFirst(Strings(authors));
    StepFirst(Strings(publishers));
  }

  /** A game's author is the first listed company's name, whatever its role. */
  lemma GameAuthorFirstCompany(m: Metadata)
    requires m.GameData?
    ensures |m.gameCompanies| > 0 ==> AuthorOf(Game, Some(MetadataJson(m))) == Success(JStr(m.gameCompanies[0].name))
    ensures |m.gameCompanies| == 0 ==> AuthorOf(Game, Some(MetadataJson(m))) == Success(Unknown)
  {
    StepFirst(Companies(m.gameCompanies));
  }

  /** So a game published by one company and developed by another gets the publisher here and the developer on the Rust site. */
  lemma GameAuthorsDiffer()
    ensures var m := GameData(None, [], [], [GameCompany(1, "Publisher", "publisher"), GameCompany(2, "Studio", "developer")]);
            && AuthorOf(Game, Some(MetadataJson(m))) == Success(JStr("Publisher"))
            && CatalogueContent.AuthorOf(m) == Some("Studio")
  {
    var cs := [GameCompany(1, "Publisher", "publisher"), GameCompany(2, "Studio", "developer")];
    var m := GameData(None, [], [], cs);
    GameAuthorFirstCompany(m);
    Roles();
    GameAuthorIsFirstDeveloper(m, 1);
  }

  lemma Roles()
    ensures !IsDeveloper(GameCompany(1, "Publisher", "publisher"))
    ensures IsDeveloper(GameCompany(2, "Studio", "developer"))
  {
    assert Lower("publisher") == "publisher";
    assert Lower("developer") == "developer";
  }

  /** A book entry without metadata, or whose metadata has neither a first author nor a publisher list, fails the endpoint. */
  lemma BookWithoutMetadataFails(metadata: Option<Json>)
    ensures Nullish(metadata) ==> AuthorOf(Book, metadata).Failure?
    ensures (!Nullish(metadata) && Nullish(OptionalStep(Step(metadata.value, "authors"), "0"))
             && Nullish(Step(metadata.value, "publishers"))) ==> AuthorOf(Book, metadata).Failure?
  {
  }

  /** The keys of an entry, all distinct. */
  lemma EntryKeys(e: FeedEntry, author: Json, coverSrc: string, placeholder: string)
    ensures var ms := EntryMembers(e, author, coverSrc, placeholder);
            && UniqueKeys(ms)
            && Keys(ms) == ["id", "cover", "placeholder", "type", "title", "rating", "author"]
                           + (if e.finished.NotApplicable? then [] else ["finishedDate"])
  {
  }

  /** The members an entry is read back by. */
  lemma EntryMembersRead(e: FeedEntry, author: Json, coverSrc: string, placeholder: string)
    ensures var ms := EntryMembers(e, author, coverSrc, placeholder);
            && Member(ms, "rating") == Some(JNum(ToNumber(e.rating)))
            && Member(ms, "type") == Some(JStr(ClientStore.TypeName(e.kind)))
            && Member(ms, "author") == Some(author)
            && (e.finished.NotApplicable? ==> Member(ms, "finishedDate").None?)
            && (e.finished.FinishedAt? ==> Member(ms, "finishedDate") == Some(JNum(e.finished.time)))
  {
    var ms := EntryMembers(e, author, coverSrc, placeholder);
    EntryKeys(e, author, coverSrc, placeholder);
    MemberAt(ms, 5);
    MemberAt(ms, 3);
    MemberAt(ms, 6);
    if e.finished.FinishedAt? {
      MemberAt(ms, 7);
    } else {
      assert forall i :: 0 <= i < |ms| ==> ms[i].0 == Keys(ms)[i];
    }
  }

  /**
   * Each entry's members, in order; the rating is its number, `finishedDate` is present
   * exactly for finished entries and holds their time, and the author is the one chosen
   * from the metadata.
   */
  lemma EntryShape(e: FeedEntry, coverSrc: string -> string, placeholder: string -> string)
    requires EntryJson(e, coverSrc, placeholder).Success?
    ensures var j := EntryJson(e, coverSrc, placeholder).value;
            && j.JObj?
            && Keys(j.members) == ["id", "cover", "placeholder", "type", "title", "rating", "author"]
                                  + (if e.finished.NotApplicable? then [] else ["finishedDate"])
            && Member(j.members, "rating") == Some(JNum(ToNumber(e.rating)))
            && Member(j.members, "type") == Some(JStr(ClientStore.TypeName(e.kind)))
            && Member(j.members, "author") == Some(AuthorOf(e.kind, e.metadata).value)
            && (e.finished.NotApplicable? ==> Member(j.members, "finishedDate").None?)
            && (e.finished.FinishedAt? ==> Member(j.members, "finishedDate") == Some(JNum(e.finished.time)))
  {
    var author := AuthorOf(e.kind, e.metadata).value;
    EntryKeys(e, author, coverSrc(e.cover), placeholder(e.cover));
    EntryMembersRead(e, author, coverSrc(e.cover), placeholder(e.cover));
  }

  /** The sections list each type once, in the order of its first entry. */
  lemma LlmsTypeOrder(es: seq<FeedEntry>, i: int, j: int)
    requires 0 <= i < j < |LlmsTypes(es)|
    ensures var ts := TypeList(es);
            LlmsTypes(es)[i] in ts && LlmsTypes(es)[j] in ts && IndexIn(ts, LlmsTypes(es)[i]) < IndexIn(ts, LlmsTypes(es)[j])
  {
    DedupOrder(TypeList(es), i, j);
  }

  /** Every entry lands in exactly one section, its type's, and each section keeps the input order. */
  lemma LlmsPartition(es: seq<FeedEntry>)
    ensures NoDup(LlmsTypes(es))
    ensures multiset(Flatten(LlmsGroups(es))) == multiset(es)
    ensures forall i :: 0 <= i < |LlmsTypes(es)| ==> LlmsGroups(es)[i] == WithKey(es, TypeOf, LlmsTypes(es)[i])
    ensures forall i :: 0 <= i < |LlmsTypes(es)| ==> |LlmsGroups(es)[i]| > 0
  {
    var ts := LlmsTypes(es);
    assert forall x :: x in es ==> TypeOf(x) in ts by {
      forall x | x in es
        ensures TypeOf(x) in ts
      {
        var k :| 0 <= k < |es| && es[k] == x;
        assert TypeList(es)[k] == TypeOf(x);
      }
    }
    GroupsPartition(es, TypeOf, ts);
    forall i | 0 <= i < |ts|
      ensures |LlmsGroups(es)[i]| > 0
    {
      assert ts[i] in TypeList(es);
      var k :| 0 <= k < |es| && TypeList(es)[k] == ts[i];
      WithKeyMembers(es, TypeOf, ts[i], es[k]);
    }
  }

  /** A catalogue of a single type is one section: the type name, then every line in input order. */
  lemma LlmsSingleType(es: seq<FeedEntry>, k: Kind)
    requires |es| > 0 && forall i :: 0 <= i < |es| ==> es[i].kind == k
    ensures LlmsText(es) == ClientStore.TypeName(k) + "\n" + Join(LlmsLines(es), "\n")
  {
    var t := ClientStore.TypeName(k);
    DedupConstant(TypeList(es), t);
    var ts := LlmsTypes(es);
    assert ts == [t];
    WholeGroup(es, t);
  }

  lemma {:induction false} WholeGroup(es: seq<FeedEntry>, t: string)
    requires forall i :: 0 <= i < |es| ==> TypeOf(es[i]) == t
    ensures WithKey(es, TypeOf, t) == es
    decreases |es|
  {
    if |es| > 0 {
      WholeGroup(es[1..], t);
    }
  }
}
