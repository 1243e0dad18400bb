/**
 * The write-once cell holding the catalogue manifest's hash, shared between the
 * route that writes the manifest and the catalogue page that advertises it.
 */
module HashCell {
  import opened Wrappers

  datatype Cell = Cell(value: Option<string>)

  const Empty := Cell(None)

  const AlreadySet := "Catalogue hash already set"

  /** `set_catalogue_hash`: succeeds on an empty cell; on a full one it fails and keeps the old value. */
  function Set(c: Cell, h: string): (r: (Cell, Result<(), string>))
    ensures r.1.Success? <==> c.value.None?
    ensures r.1.Success? ==> Get(r.0) == Some(h)
    ensures r.1.Failure? ==> r.0 == c && r.1.error == AlreadySet
  {
    if c.value.None? then (Cell(Some(h)), Success(())) else (c, Failure(AlreadySet))
  }

  /** `get_catalogue_hash`. */
  function Get(c: Cell): Option<string>
  {
    c.value
  }

  /** The cell after a series of set attempts whose results are ignored. */
  function SetAll(c: Cell, hs: seq<string>): Cell
    decreases |hs|
  {
    if |hs| == 0 then c else SetAll(Set(c, hs[0]).0, hs[1..])
  }

  /** Nothing is readable before the first set. */
  lemma EmptyReadsNone()
    ensures Get(Empty) == None
  {
  }

  /** Starting empty, the first hash ever set is the one every later read sees. */
  lemma {:induction false} FirstSetWins(hs: seq<string>)
    requires |hs| > 0
    ensures Get(SetAll(Empty, hs)) == Some(hs[0])
  {
    KeepsValue(Set(Empty, hs[0]).0, hs[1..]);
  }

  /** Once full, no series of sets changes the cell. */
  lemma {:induction false} KeepsValue(c: Cell, hs: seq<string>)
    requires c.value.Some?
    ensures SetAll(c, hs) == c
    decreases |hs|
  {
    if |hs| > 0 {
      KeepsValue(Set(c, hs[0]).0, hs[1..]);
    }
  }
}
