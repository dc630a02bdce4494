/**
 * Reconstruction of one spreadsheet row from its sparse list of cells (parse_row).
 * A cell may carry an explicit 1-based column index; the columns it skips were
 * left out of the export and come back as None placeholders.
 */
module SparseRow {
  import opened Wrappers

  /** One cell: an optional explicit 1-based column index and an optional text payload. */
  datatype Cell = Cell(index: Option<nat>, text: Option<string>)

  /** A dense row: entry k is the text of column k + 1, or None. */
  type Row = seq<Option<string>>

  /** How many placeholders a cell with this index needs when the counter stands at `current`. */
  function Placeholders(index: Option<nat>, current: nat): nat
  {
    if index.Some? && current < index.value then index.value - current else 0
  }

  function Nones(n: nat): (r: Row)
    ensures |r| == n && forall k :: 0 <= k < n ==> r[k] == None
  {
    seq(n, _ => None)
  }

  /**
   * The row the cells describe, cell by cell in input order: before each cell, pad
   * with None until the next free column reaches the cell's explicit index, then
   * append its text. The next free column is always |row| + 1.
   */
  function Reconstruct(cells: seq<Cell>): (row: Row)
    decreases |cells|
  {
    if cells == [] then []
    else
      var before := Reconstruct(cells[..|cells| - 1]);
      var cell := cells[|cells| - 1];
      before + Nones(Placeholders(cell.index, |before| + 1)) + [cell.text]
  }

  /** The texts of the cells, in order, with no placeholders. */
  function Texts(cells: seq<Cell>): (r: Row)
    ensures |r| == |cells| && forall k :: 0 <= k < |cells| ==> r[k] == cells[k].text
  {
    seq(|cells|, k requires 0 <= k < |cells| => cells[k].text)
  }

  /** The counter-and-append loop of parse_row. */
  method ParseRow(cells: seq<Cell>) returns (row: Row)
    ensures row == Reconstruct(cells)
  {
    row := [];
    var current := 1;
    var i := 0;
    while i < |cells|
      invariant 0 <= i <= |cells|
      invariant row == Reconstruct(cells[..i])
      invariant current == |row| + 1
    {
      var cell := cells[i];
      ghost var before := row;
      if cell.index.Some? {
        var indexVal := cell.index.value;
        while current < indexVal
          invariant |before| + 1 <= current == |row| + 1
          invariant current <= indexVal || current == |before| + 1
          invariant row == before + Nones(current - |before| - 1)
        {
          row := row + [None];
          current := current + 1;
        }
      }
      assert row == before + Nones(Placeholders(cell.index, |before| + 1));
      row := row + [cell.text];
      current := current + 1;
      assert cells[..i + 1][..i] == cells[..i];
      i := i + 1;
    }
    assert cells[..|cells|] == cells;
  }

  /** Later cells only ever append: the row built from a prefix of the cells is a prefix of the whole row. */
  lemma {:induction false} ReconstructExtends(cells: seq<Cell>, i: nat)
    requires i <= |cells|
    ensures Reconstruct(cells[..i]) <= Reconstruct(cells)
    decreases |cells|
  {
    if i < |cells| {
      var init := cells[..|cells| - 1];
      assert init[..i] == cells[..i];
      ReconstructExtends(init, i);
    } else {
      assert cells[..i] == cells;
    }
  }

  /** The 0-based column at which the text of cell i ends up. */
  function Slot(cells: seq<Cell>, i: nat): nat
    requires i < |cells|
  {
    var next := |Reconstruct(cells[..i])|;
    next + Placeholders(cells[i].index, next + 1)
  }

  /**
   * Each cell contributes its text exactly once, at its slot; the columns between the
   * previous cells' entries and that slot are placeholders. An explicit index beyond the
   * counter puts the text at exactly that column; an index at or below it (or no index)
   * puts it at the next free column.
   */
  lemma CellLandsAtSlot(cells: seq<Cell>, i: nat)
    requires i < |cells|
    ensures Slot(cells, i) < |Reconstruct(cells)|
    ensures Reconstruct(cells)[Slot(cells, i)] == cells[i].text
    ensures forall k :: |Reconstruct(cells[..i])| <= k < Slot(cells, i) ==> Reconstruct(cells)[k] == None
    ensures cells[i].index.Some? && |Reconstruct(cells[..i])| < cells[i].index.value ==>
              Slot(cells, i) == cells[i].index.value - 1
    ensures cells[i].index.None? || cells[i].index.value <= |Reconstruct(cells[..i])| + 1 ==>
              Slot(cells, i) == |Reconstruct(cells[..i])|
  {
    var upto := cells[..i + 1];
    assert upto[..i] == cells[..i];
    assert upto[i] == cells[i];
    ReconstructExtends(cells, i + 1);
  }

  /** Output order is input order: slots strictly increase. */
  lemma SlotsIncrease(cells: seq<Cell>, i: nat, j: nat)
    requires i < j < |cells|
    ensures Slot(cells, i) < Slot(cells, j)
  {
    var upto := cells[..i + 1];
    assert upto[..i] == cells[..i];
    assert cells[..j][..i + 1] == upto;
    ReconstructExtends(cells[..j], i + 1);
  }

  /** Nothing is invented: every entry that is not a placeholder is the text of the cell whose slot it is. */
  lemma {:induction false} EntriesComeFromCells(cells: seq<Cell>, k: nat)
    requires k < |Reconstruct(cells)| && Reconstruct(cells)[k] != None
    ensures exists i :: 0 <= i < |cells| && Slot(cells, i) == k && cells[i].text == Reconstruct(cells)[k]
    decreases |cells|
  {
    var n := |cells| - 1;
    var init := cells[..n];
    assert cells[..n] == init;
    if k < |Reconstruct(init)| {
      EntriesComeFromCells(init, k);
      var i :| 0 <= i < |init| && Slot(init, i) == k && init[i].text == Reconstruct(init)[k];
      assert init[..i] == cells[..i];
      assert Slot(cells, i) == k;
    } else {
      assert Slot(cells, n) == k;
    }
  }

  /** Every explicit index is covered by the row, and no cell is lost. */
  lemma {:induction false} RowCoversIndices(cells: seq<Cell>)
    ensures |cells| <= |Reconstruct(cells)|
    ensures forall i :: 0 <= i < |cells| && cells[i].index.Some? ==> cells[i].index.value <= |Reconstruct(cells)|
    decreases |cells|
  {
    if cells != [] {
      var n := |cells| - 1;
      RowCoversIndices(cells[..n]);
      forall i | 0 <= i < |cells| && cells[i].index.Some?
        ensures cells[i].index.value <= |Reconstruct(cells)|
      {
        CellLandsAtSlot(cells, i);
      }
    }
  }

  /**
   * When no explicit index runs ahead of the cell's own position (in particular when
   * every index is sequential, or absent), no placeholder is inserted.
   */
  lemma {:induction false} SequentialRow(cells: seq<Cell>)
    requires forall i :: 0 <= i < |cells| && cells[i].index.Some? ==> cells[i].index.value <= i + 1
    ensures Reconstruct(cells) == Texts(cells)
    decreases |cells|
  {
    if cells != [] {
      var n := |cells| - 1;
      var init := cells[..n];
      SequentialRow(init);
      assert Placeholders(cells[n].index, |Texts(init)| + 1) == 0;
      assert Texts(cells) == Texts(init) + [cells[n].text];
      assert Reconstruct(cells) == Texts(init) + [cells[n].text];
    }
  }

  /** A gap in the explicit indices is filled: [(1, "a"), (3, "c")] gives ["a", None, "c"]. */
  lemma GapExample()
    ensures Reconstruct([Cell(Some(1), Some("a")), Cell(Some(3), Some("c"))]) == [Some("a"), None, Some("c")]
  {
    var cells := [Cell(Some(1), Some("a")), Cell(Some(3), Some("c"))];
    assert cells[..1] == [cells[0]];
    assert cells[..1][..0] == [];
    assert Reconstruct(cells[..1]) == [Some("a")];
  }
}
