/** A grid saved to the NVRAM file and read back by another cache. */
module GridStore {
  import opened CanonicalCode
  import opened NvramStore
  import opened NvramFile
  import opened Grid

  /**
   * Sync, set, get and parse: the rows and columns come back, and every cell, `NULL` ones as empty strings,
   * exactly when the printed value does not look like a deleted variable.
   */
  method SaveAndReload(f: File, d: File, name: Text, e: Entry, mine: Text, other: Text) returns (n: Entry)
    requires f != d && f.Valid() && d.Valid() && IsName(name)
    requires e.kind == Array && 1 <= e.rowsUsed <= |e.data| && 1 <= e.columns && (e.rowsUsed > 1 || e.columns > 1)
    requires forall i :: 0 <= i < e.rowsUsed ==> e.columns <= |e.data[i]|
    requires Storable(e.data[..e.rowsUsed], e.columns)
    modifies f, e`value
    ensures e.value.Some?
    ensures Deleted(e.value.value) ==> n.value == None && n.kind == Unknown
    ensures !Deleted(e.value.value) ==> n.kind == Array && n.rowsUsed == e.rowsUsed && n.columns == e.columns
    ensures !Deleted(e.value.value) ==>
      |n.data| == e.rowsUsed && forall i, j :: 0 <= i < e.rowsUsed && 0 <= j < e.columns ==>
        |n.data[i]| == e.columns && n.data[i][j] == Some(if e.data[i][j].Some? then e.data[i][j].value else [])
  {
    hide Lookup, SetLines, Ahead, Encode, Rows, Present, Shown, GridOf, IsRagged, Regular, Padded, Widest, Counted,
         Storable, IsGrid;
    ghost var g := Shown(e.data[..e.rowsUsed], e.columns);
    ShownReads(e.data[..e.rowsUsed], e.columns);
    e.Sync();
    RowsIsValueOf(g, e.columns);
    ghost var ls := f.lines;
    GetAfterSet(ls, name, Rows(g), name);
    f.Set(name, e.value.value);
    NonEmpty(f.lines);
    var v := NvramGet(f, d, name, mine, other);
    n := new Entry(v);
    if v.Some? {
      GridOfRows(g);
      var _ := n.Parse();
      PresentCells(g);
    }
  }

  lemma PresentCells(g: seq<seq<Text>>)
    ensures |Present(g)| == |g|
    ensures forall i :: 0 <= i < |g| ==> |Present(g)[i]| == |g[i]|
    ensures forall i, j :: 0 <= i < |g| && 0 <= j < |g[i]| ==> Present(g)[i][j] == Some(g[i][j])
  {
  }

  lemma RowsIsValueOf(g: seq<seq<Text>>, columns: nat)
    requires IsGrid(g, columns)
    ensures IsValue(Rows(g)) && |g| >= 1 && |g[0]| == columns
    ensures IsRagged(g) && Widest(g) == columns && Regular(g) && Padded(g, columns) == g
  {
    EvenGrid(g, columns);
    RaggedIsValue(g);
  }

  lemma NonEmpty(ls: seq<Text>)
    requires AreLines(ls)
    ensures Encode(ls) != []
  {
    ImageAhead(ls);
  }

  /** A grid that is lost: one row of the cells `*DEL*` and `x`. */
  lemma LostGrid()
    ensures var g: seq<seq<Text>> := [[[42, 68, 69, 76, 42], [120]]];
      IsGrid(g, 2) && Deleted(Rows(g))
  {
    var a: Text, b: Text := [42, 68, 69, 76, 42], [120];
    assert IsCell(a) && IsCell(b);
    assert Cells([a, b]) == a + [CELL_END] + Cells([a, b][1..]);
    assert (a + [CELL_END])[..5] == a;
  }
}
