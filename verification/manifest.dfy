/**
 * The catalogue manifest served at `/catalogue/content.json`: one compact row per
 * entry, games first, then movies, shows and books, prefixed by a hash of all rows;
 * and the catalogue page, which advertises that hash so the browser can tell whether
 * its cached copy is current. `ReadRow` and `ReadManifest` are the browser's view of
 * the same JSON.
 */
module Manifest {
  import opened Wrappers
  import opened Text
  import opened Json
  import opened Calendar
  import opened CatalogueContent
  import HashCell

  /** Entries rendered per page, and skeleton cards on the initial page. */
  const PageLength: nat := 32

  /** The `u64` range of `DefaultHasher::finish`. */
  const U64: nat := 0x1_0000_0000_0000_0000

  /** Type codes: games 0, movies 1, shows 2, books 3. */
  function TypeId(k: Kind): (n: nat)
    ensures n <= 3
  {
    match k
    case Game => 0
    case Movie => 1
    case Show => 2
    case Book => 3
  }

  lemma TypeIdInjective(a: Kind, b: Kind)
    ensures TypeId(a) == TypeId(b) ==> a == b
  {
  }

  /** `unwrap_or_default` on an author: the empty string when there is none. */
  function AuthorText(a: Option<string>): string
  {
    if a.Some? then a.value else ""
  }

  /**
   * One row: cover URL, placeholder, type code, title, rating number, author, and the
   * finished date as midnight-UTC milliseconds only when there is one. Reading the
   * author unwraps the metadata, so an entry without metadata is a panic.
   */
  function Row(e: Entry, typeId: nat): (r: Result<seq<Json>, string>)
    ensures r.Success? <==> e.metadata.Some?
    ensures r.Success? ==> |r.value| == (if e.finishedDate.Some? then 7 else 6)
  {
    var author :- GetAuthor(e);
    var head := [JStr(e.cover.url), JStr(e.cover.placeholder), JNum(typeId), JStr(e.title),
                 JNum(ToNumber(e.rating)), JStr(AuthorText(author))];
    match e.finishedDate
    case Some(d) => Success(head + [JNum(MidnightMillis(d))])
    case None => Success(head)
  }

  /** The rows of one source, in source order. */
  function Rows(es: seq<Entry>, typeId: nat): (r: Result<seq<seq<Json>>, string>)
    ensures r.Success? <==> forall i :: 0 <= i < |es| ==> es[i].metadata.Some?
    ensures r.Success? ==> |r.value| == |es|
    ensures r.Success? ==> forall i :: 0 <= i < |es| ==> Row(es[i], typeId) == Success(r.value[i])
  {
    if |es| == 0 then Success([])
    else
      var first :- Row(es[0], typeId);
      var rest :- Rows(es[1..], typeId);
      assert forall i :: 1 <= i < |es| ==> es[i] == es[1..][i - 1];
      Success([first] + rest)
  }

  datatype Sources = Sources(games: seq<Entry>, movies: seq<Entry>, shows: seq<Entry>, books: seq<Entry>)

  function Total(src: Sources): nat
  {
    |src.games| + |src.movies| + |src.shows| + |src.books|
  }

  /** The source an index of the concatenated rows falls in, and the index inside it. */
  function Locate(src: Sources, i: nat): (Kind, nat)
  {
    var g, m, s := |src.games|, |src.movies|, |src.shows|;
    if i < g then (Game, i)
    else if i < g + m then (Movie, i - g)
    else if i < g + m + s then (Show, i - g - m)
    else (Book, i - g - m - s)
  }

  function SourceOf(src: Sources, k: Kind): seq<Entry>
  {
    match k
    case Game => src.games
    case Movie => src.movies
    case Show => src.shows
    case Book => src.books
  }

  /** All rows: games, movies, shows, books, each source in its own order. */
  function AllRows(src: Sources): (r: Result<seq<seq<Json>>, string>)
    ensures r.Success? ==> |r.value| == Total(src)
  {
    var g :- Rows(src.games, 0);
    var m :- Rows(src.movies, 1);
    var s :- Rows(src.shows, 2);
    var b :- Rows(src.books, 3);
    Success(g + m + s + b)
  }

  /** Row `i` of the manifest is the row of the entry `Locate` assigns to it, with that source's type code. */
  lemma AllRowsLocate(src: Sources, i: nat)
    requires AllRows(src).Success? && i < Total(src)
    ensures var (k, j) := Locate(src, i);
      j < |SourceOf(src, k)| && Row(SourceOf(src, k)[j], TypeId(k)) == Success(AllRows(src).value[i])
  {
    var (k, j) := Locate(src, i);
    AllRowsParts(src);
    var g := Rows(src.games, 0).value;
    var m := Rows(src.movies, 1).value;
    var s := Rows(src.shows, 2).value;
    var b := Rows(src.books, 3).value;
    LocateConcat(src, g, m, s, b, i);
    PartRows(src, k);
    RowsAt(SourceOf(src, k), TypeId(k), j);
  }

  /** The `k` part of four sequences laid out like the four sources. */
  function Part<T>(k: Kind, g: seq<T>, m: seq<T>, s: seq<T>, b: seq<T>): seq<T>
  {
    match k
    case Game => g
    case Movie => m
    case Show => s
    case Book => b
  }

  lemma LocateConcat<T>(src: Sources, g: seq<T>, m: seq<T>, s: seq<T>, b: seq<T>, i: nat)
    requires |g| == |src.games| && |m| == |src.movies| && |s| == |src.shows| && |b| == |src.books|
    requires i < Total(src)
    ensures var (k, j) := Locate(src, i);
      j < |Part(k, g, m, s, b)| && (g + m + s + b)[i] == Part(k, g, m, s, b)[j]
  {
    Concat4At(g, m, s, b, i);
  }

  lemma PartRows(src: Sources, k: Kind)
    requires Rows(src.games, 0).Success? && Rows(src.movies, 1).Success?
    requires Rows(src.shows, 2).Success? && Rows(src.books, 3).Success?
    ensures Rows(SourceOf(src, k), TypeId(k)).Success?
    ensures Rows(SourceOf(src, k), TypeId(k)).value ==
      Part(k, Rows(src.games, 0).value, Rows(src.movies, 1).value, Rows(src.shows, 2).value, Rows(src.books, 3).value)
  {
  }

  lemma AllRowsParts(src: Sources)
    requires AllRows(src).Success?
    ensures Rows(src.games, 0).Success? && Rows(src.movies, 1).Success?
    ensures Rows(src.shows, 2).Success? && Rows(src.books, 3).Success?
    ensures AllRows(src).value ==
      Rows(src.games, 0).value + Rows(src.movies, 1).value + Rows(src.shows, 2).value + Rows(src.books, 3).value
  {
  }

  lemma RowsAt(es: seq<Entry>, typeId: nat, j: nat)
    requires Rows(es, typeId).Success? && j < |es|
    ensures Row(es[j], typeId) == Success(Rows(es, typeId).value[j])
  {
  }

  lemma Concat4At<T>(a: seq<T>, b: seq<T>, c: seq<T>, d: seq<T>, i: nat)
    requires i < |a| + |b| + |c| + |d|
    ensures (a + b + c + d)[i] ==
      if i < |a| then a[i]
      else if i < |a| + |b| then b[i - |a|]
      else if i < |a| + |b| + |c| then c[i - |a| - |b|]
      else d[i - |a| - |b| - |c|]
  {
  }

  /** `format!("{:x}", hasher.finish())` over the rows; the hasher is a parameter. */
  function HashHex(rows: seq<seq<Json>>, hasher: seq<seq<Json>> -> nat): string
  {
    NatToBase(hasher(rows) % U64, 16)
  }

  function Pow16(k: nat): nat
  {
    if k == 0 then 1 else 16 * Pow16(k - 1)
  }

  /** A natural below 16^k has at most k hex digits. */
  lemma {:induction false} HexLength(n: nat, k: nat)
    requires 1 <= k && n < Pow16(k)
    ensures |NatToBase(n, 16)| <= k
    decreases k
  {
    if n >= 16 {
      assert Pow16(k) == 16 * Pow16(k - 1);
      assert NatToBase(n, 16) == NatToBase(n / 16, 16) + [DigitChar(n % 16)];
      assert n == 16 * (n / 16) + n % 16;
      HexLength(n / 16, k - 1);
    }
  }

  /** The manifest hash is non-empty lower-case hex of at most 16 digits. */
  lemma HashHexShape(rows: seq<seq<Json>>, hasher: seq<seq<Json>> -> nat)
    ensures 1 <= |HashHex(rows, hasher)| <= 16 && AllDigits(HashHex(rows, hasher), 16)
  {
    assert Pow16(16) == U64 by {
      assert Pow16(4) == 0x1_0000;
      assert Pow16(8) == 0x1_0000_0000;
      assert Pow16(12) == 0x1_0000_0000_0000;
    }
    HexLength(hasher(rows) % U64, 16);
  }

  function Arrays(rows: seq<seq<Json>>): (r: seq<Json>)
    ensures |r| == |rows|
    ensures forall i :: 0 <= i < |rows| ==> r[i] == JArr(rows[i])
  {
    seq(|rows|, i requires 0 <= i < |rows| => JArr(rows[i]))
  }

  /**
   * The manifest route: `[hash, rows]`, storing the hash in the write-once cell and
   * ignoring the error when it is already set.
   */
  function Content(src: Sources, hasher: seq<seq<Json>> -> nat, cell: HashCell.Cell): (r: Result<(Json, HashCell.Cell), string>)
    ensures r.Success? <==> AllRows(src).Success?
    ensures r.Success? ==>
      var rows := AllRows(src).value;
      var h := HashHex(rows, hasher);
      && r.value.0 == JArr([JStr(h), JArr(Arrays(rows))])
      && r.value.1 == (if cell.value.None? then HashCell.Cell(Some(h)) else cell)
  {
    var rows :- AllRows(src);
    var h := HashHex(rows, hasher);
    Success((JArr([JStr(h), JArr(Arrays(rows))]), HashCell.Set(cell, h).0))
  }

  /** The catalogue page's data attributes and skeleton count. */
  datatype Page = Page(latest: string, pageLength: nat, skeletons: nat)

  /** The catalogue page unwraps the stored hash: rendering it before the manifest is a panic. */
  function CataloguePage(cell: HashCell.Cell): (r: Result<Page, string>)
    ensures r.Success? <==> HashCell.Get(cell).Some?
    ensures r.Success? ==> r.value == Page(HashCell.Get(cell).value, PageLength, PageLength)
  {
    match HashCell.Get(cell)
    case Some(h) => Success(Page(h, PageLength, PageLength))
    case None => Failure("catalogue hash read before it was set")
  }

  // ---------------------------------------------------------------- the browser's side

  /** A row as the browser destructures it. */
  datatype Tuple = Tuple(cover: string, placeholder: string, typeCode: int, title: string,
                         rating: int, author: string, date: Option<int>)

  /** `const [cover, placeholder, type, title, rating, author, date] = item` on a well-formed row. */
  function ReadRow(j: Json): (r: Option<Tuple>)
    ensures r.Some? ==> j.JArr? && (|j.items| == 6 || |j.items| == 7)
  {
    if j.JArr? && (|j.items| == 6 || |j.items| == 7) then
      var it := j.items;
      if it[0].JStr? && it[1].JStr? && it[2].JNum? && it[3].JStr? && it[4].JNum? && it[5].JStr?
         && (|it| == 7 ==> it[6].JNum?) then
        Some(Tuple(it[0].s, it[1].s, it[2].n, it[3].s, it[4].n, it[5].s, if |it| == 7 then Some(it[6].n) else None))
      else None
    else None
  }

  function ReadRows(js: seq<Json>): (r: Option<seq<Tuple>>)
    ensures r.Some? ==> |r.value| == |js| && forall i :: 0 <= i < |js| ==> ReadRow(js[i]) == Some(r.value[i])
  {
    if |js| == 0 then Some([])
    else
      match (ReadRow(js[0]), ReadRows(js[1..]))
      case (Some(t), Some(ts)) =>
        assert forall i :: 1 <= i < |js| ==> js[i] == js[1..][i - 1];
        Some([t] + ts)
      case _ => None
  }

  /** `const [version, data] = content`. */
  function ReadManifest(j: Json): (r: Option<(string, seq<Tuple>)>)
  {
    if j.JArr? && |j.items| == 2 && j.items[0].JStr? && j.items[1].JArr? then
      match ReadRows(j.items[1].items)
      case Some(ts) => Some((j.items[0].s, ts))
      case None => None
    else None
  }

  /** What the browser reads back from an entry's row. */
  function Expected(e: Entry, typeId: nat): Tuple
    requires e.metadata.Some?
  {
    Tuple(e.cover.url, e.cover.placeholder, typeId, e.title, ToNumber(e.rating),
          AuthorText(AuthorOf(e.metadata.value)),
          if e.finishedDate.Some? then Some(MidnightMillis(e.finishedDate.value)) else None)
  }

  /** Row encoding round-trips: the browser reads back every field the build wrote. */
  lemma ReadRowOfRow(e: Entry, typeId: nat)
    requires Row(e, typeId).Success?
    ensures ReadRow(JArr(Row(e, typeId).value)) == Some(Expected(e, typeId))
  {
  }

  /**
   * The whole manifest round-trips: the browser reads the hash the build stored and one
   * tuple per entry, whose type code is the one of the source the entry came from.
   */
  lemma ReadManifestOfContent(src: Sources, hasher: seq<seq<Json>> -> nat, cell: HashCell.Cell)
    requires Content(src, hasher, cell).Success?
    ensures ReadManifest(Content(src, hasher, cell).value.0).Some?
    ensures var (h, ts) := ReadManifest(Content(src, hasher, cell).value.0).value;
      && h == HashHex(AllRows(src).value, hasher)
      && |ts| == Total(src)
      && forall i :: 0 <= i < |ts| ==>
           var (k, j) := Locate(src, i);
           j < |SourceOf(src, k)| && ts[i] == Expected(SourceOf(src, k)[j], TypeId(k))
  {
    var rows := AllRows(src).value;
    var js := Arrays(rows);
    forall i | 0 <= i < |rows|
      ensures ReadRow(js[i]).Some?
      ensures var (k, j) := Locate(src, i);
        j < |SourceOf(src, k)| && ReadRow(js[i]) == Some(Expected(SourceOf(src, k)[j], TypeId(k)))
    {
      var (k, j) := Locate(src, i);
      AllRowsLocate(src, i);
      ReadRowOfRow(SourceOf(src, k)[j], TypeId(k));
    }
    ReadRowsAll(js);
  }

  lemma {:induction false} ReadRowsAll(js: seq<Json>)
    requires forall i :: 0 <= i < |js| ==> ReadRow(js[i]).Some?
    ensures ReadRows(js).Some?
    decreases |js|
  {
    if |js| > 0 {
      ReadRowsAll(js[1..]);
    }
  }

  /** Built from an empty cell, the page advertises exactly the hash the manifest carries. */
  lemma PageAdvertisesManifestHash(src: Sources, hasher: seq<seq<Json>> -> nat)
    requires Content(src, hasher, HashCell.Empty).Success?
    ensures var (j, cell) := Content(src, hasher, HashCell.Empty).value;
      && CataloguePage(cell).Success?
      && ReadManifest(j).Some?
      && CataloguePage(cell).value.latest == ReadManifest(j).value.0
  {
    ReadManifestOfContent(src, hasher, HashCell.Empty);
  }
}
