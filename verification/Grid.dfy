/** Arrays stored in one setting: rows end with byte 1, cells with byte 2 (nvram_cache.c). */
module Grid {
  import opened Bits
  import opened CanonicalCode
  import opened NvramStore

  const ROW_END: byte := 1
  const CELL_END: byte := 2

  /** What may stand in a cell. */
  predicate IsCell(t: Text) { 0 !in t && ROW_END !in t && CELL_END !in t }

  /** Cells with `CELL_END` between them. */
  function Cells(cs: seq<Text>): Text
  {
    if cs == [] then [] else if |cs| == 1 then cs[0] else cs[0] + [CELL_END] + Cells(cs[1..])
  }

  /** Rows with `ROW_END` between them. */
  function Rows(g: seq<seq<Text>>): Text
  {
    if g == [] then [] else if |g| == 1 then Cells(g[0]) else Cells(g[0]) + [ROW_END] + Rows(g[1..])
  }

  ghost predicate IsRow(cs: seq<Text>, columns: nat)
  {
    |cs| == columns && forall j :: 0 <= j < |cs| ==> IsCell(cs[j])
  }

  /** A grid of equally long rows. */
  ghost predicate IsGrid(g: seq<seq<Text>>, columns: nat)
  {
    |g| >= 1 && columns >= 1 && forall i :: 0 <= i < |g| ==> IsRow(g[i], columns)
  }

  /** Rows of any lengths. */
  ghost predicate IsRagged(g: seq<seq<Text>>)
  {
    |g| >= 1 && forall i :: 0 <= i < |g| ==> g[i] != [] && IsRow(g[i], |g[i]|)
  }

  function Max(a: nat, b: nat): nat { if a > b then a else b }

  /** The length of the longest row. */
  function Widest(g: seq<seq<Text>>): (c: nat)
    ensures forall i :: 0 <= i < |g| ==> |g[i]| <= c
    ensures g != [] ==> exists i :: 0 <= i < |g| && |g[i]| == c
  {
    if g == [] then 0
    else
      var c := Widest(g[1..]);
      assert forall i :: 1 <= i < |g| ==> g[i] == g[1..][i - 1];
      assert |g| > 1 ==> exists i :: 0 <= i < |g| - 1 && |g[1..][i]| == |g[i + 1]| == c;
      Max(|g[0]|, c)
  }

  // ----- every value is a grid

  /** The rows and cells of a value. */
  function GridOf(v: Text): (g: seq<seq<Text>>)
    ensures |g| >= 1 && forall i :: 0 <= i < |g| ==> g[i] != []
  {
    if v == [] then [[[]]]
    else
      var g := GridOf(v[1..]);
      if v[0] == ROW_END then [[[]]] + g
      else if v[0] == CELL_END then [[[]] + g[0]] + g[1..]
      else [[[v[0]] + g[0][0]] + g[0][1..]] + g[1..]
  }

  /** A value is the printed form of its grid. */
  lemma {:induction false} RowsOfGrid(v: Text)
    ensures Rows(GridOf(v)) == v
  {
    hide Rows, Cells, AfterRow;
    if v == [] {
      OneCell([]);
    } else {
      var r, g := GridOf(v), GridOf(v[1..]);
      RowsOfGrid(v[1..]);
      RowsSplit(g);
      RowsSplit(r);
      assert v == [v[0]] + v[1..];
      if v[0] == ROW_END {
        assert r[0] == [[]] && r[1..] == g;
        OneCell([]);
        RowBegins(g);
      } else if v[0] == CELL_END {
        assert r[0][0] == [] && r[0][1..] == g[0] && r[1..] == g[1..];
        CellsSplit(r[0]);
        Regroup(CELL_END, Cells(g[0]), AfterRow(g[1..]));
      } else {
        assert r[0][0] == [v[0]] + g[0][0] && r[0][1..] == g[0][1..] && r[1..] == g[1..];
        CellsSplit(r[0]);
        CellsSplit(g[0]);
        Joined(v[0], g[0][0], AfterCell(g[0][1..]), AfterRow(g[1..]));
      }
    }
  }

  lemma {:induction false} GridIsRagged(v: Text)
    requires IsValue(v)
    ensures IsRagged(GridOf(v))
  {
    hide IsCell;
    EmptyCell();
    if v != [] {
      var r, g := GridOf(v), GridOf(v[1..]);
      assert v[0] in v;
      GridIsRagged(v[1..]);
      if v[0] != ROW_END && v[0] != CELL_END {
        LongerCell(v[0], g[0][0]);
      }
      forall i | 0 <= i < |r|
        ensures IsRow(r[i], |r[i]|)
      {
        if v[0] == ROW_END && i > 0 {
          assert r[i] == g[i - 1];
        }
      }
    }
  }

  lemma OneCell(c: Text)
    ensures Rows([[c]]) == c && Cells([c]) == c
  {
  }

  lemma EmptyCell()
    ensures IsCell([])
  {
  }

  lemma LongerCell(b: byte, c: Text)
    requires IsCell(c) && b != 0 && b != ROW_END && b != CELL_END
    ensures IsCell([b] + c)
  {
  }

  lemma Joined(b: byte, c: Text, d: Text, e: Text)
    ensures ([b] + c) + d + e == [b] + (c + d + e)
  {
  }

  // ----- counting

  /** The counters of the first loop: rows, cells in the current row, most cells in a finished row. */
  datatype Count = Count(rows: nat, cells: nat, most: nat)

  function Tick(k: Count, b: byte): Count
  {
    if b == CELL_END then k.(cells := k.cells + 1)
    else if b == ROW_END then Count(k.rows + 1, 1, if k.cells > k.most then k.cells else k.most)
    else k
  }

  function Ticks(k: Count, v: Text): Count
    decreases |v|
  {
    if v == [] then k else Ticks(Tick(k, v[0]), v[1..])
  }

  lemma {:induction false} TicksAppend(k: Count, a: Text, b: Text)
    ensures Ticks(k, a + b) == Ticks(Ticks(k, a), b)
    decreases |a|
  {
    hide Tick;
    if a == [] {
      assert a + b == b;
    } else {
      assert (a + b)[0] == a[0] && (a + b)[1..] == a[1..] + b;
      TicksAppend(Tick(k, a[0]), a[1..], b);
    }
  }

  lemma {:induction false} TicksCell(k: Count, t: Text)
    requires IsCell(t)
    ensures Ticks(k, t) == k
    decreases |t|
  {
    if t != [] {
      assert t[0] in t;
      TicksCell(k, t[1..]);
    }
  }

  lemma TicksOne(k: Count, b: byte)
    ensures Ticks(k, [b]) == Tick(k, b)
  {
    assert Ticks(k, [b]) == Ticks(Tick(k, b), [b][1..]);
  }

  lemma {:induction false} TicksRow(k: Count, cs: seq<Text>)
    requires cs != [] && IsRow(cs, |cs|)
    ensures Ticks(k, Cells(cs)) == k.(cells := k.cells + |cs| - 1)
    decreases |cs|
  {
    hide Ticks, IsCell;
    TicksCell(k, cs[0]);
    if |cs| > 1 {
      var rest := Cells(cs[1..]);
      TicksAppend(k, cs[0] + [CELL_END], rest);
      TicksAppend(k, cs[0], [CELL_END]);
      TicksOne(k, CELL_END);
      TicksRow(k.(cells := k.cells + 1), cs[1..]);
    }
  }

  /** Counting finds the number of rows and the length of the longest one. */
  lemma {:induction false} TicksGrid(rows: nat, most: nat, g: seq<seq<Text>>)
    requires IsRagged(g)
    ensures var k := Ticks(Count(rows, 1, most), Rows(g));
      k.rows == rows + |g| - 1 && Max(k.cells, k.most) == Max(most, Widest(g))
    decreases |g|
  {
    hide Ticks, IsCell, Cells;
    var k := Count(rows, 1, most);
    TicksRow(k, g[0]);
    if |g| > 1 {
      TicksAppend(k, Cells(g[0]) + [ROW_END], Rows(g[1..]));
      TicksAppend(k, Cells(g[0]), [ROW_END]);
      TicksOne(k.(cells := |g[0]|), ROW_END);
      TicksGrid(rows + 1, Max(most, |g[0]|), g[1..]);
    }
  }

  // ----- cursors

  /** `my_strchrnul`: the first `c` from `cp` on, or the end. */
  method StrChrNul(v: Text, cp: nat, c: byte) returns (r: nat)
    requires cp <= |v|
    ensures cp <= r <= |v| && (forall i :: cp <= i < r ==> v[i] != c) && (r < |v| ==> v[r] == c)
  {
    r := cp;
    while r < |v|
      invariant cp <= r <= |v| && forall i :: cp <= i < r ==> v[i] != c
    {
      if v[r] == c {
        return;
      }
      r := r + 1;
    }
  }

  /** What follows a row. */
  function AfterRow(g: seq<seq<Text>>): Text
  {
    if g == [] then [] else [ROW_END] + Rows(g)
  }

  /** What follows a cell of its row. */
  function AfterCell(cs: seq<Text>): Text
  {
    if cs == [] then [] else [CELL_END] + Cells(cs)
  }

  lemma RowsSplit(g: seq<seq<Text>>)
    requires g != []
    ensures Rows(g) == Cells(g[0]) + AfterRow(g[1..])
  {
  }

  lemma CellsSplit(cs: seq<Text>)
    requires cs != []
    ensures Cells(cs) == cs[0] + AfterCell(cs[1..])
  {
  }

  /** There is no row end inside a row. */
  lemma {:induction false} RowClean(cs: seq<Text>)
    requires IsRow(cs, |cs|)
    ensures ROW_END !in Cells(cs)
    decreases |cs|
  {
    if |cs| > 1 {
      RowClean(cs[1..]);
    }
  }

  /** The end of the row at the cursor. */
  lemma RowEndIs(v: Text, cp: nat, cs: seq<Text>, g: seq<seq<Text>>, r: nat)
    requires cp <= |v| && v[cp..] == Cells(cs) + AfterRow(g) && IsRow(cs, |cs|)
    requires cp <= r <= |v| && (forall i :: cp <= i < r ==> v[i] != ROW_END) && (r < |v| ==> v[r] == ROW_END)
    ensures r == cp + |Cells(cs)|
  {
    hide Cells, Rows;
    RowClean(cs);
    var t, n := v[cp..], |Cells(cs)|;
    assert forall i :: 0 <= i < |t| ==> t[i] == v[cp + i];
    assert forall i :: 0 <= i < n ==> t[i] == Cells(cs)[i] && Cells(cs)[i] in Cells(cs);
    if g != [] {
      assert t[n] == ROW_END && v[cp + n] == ROW_END;
    }
  }

  /** The end of the cell at the cursor. */
  lemma CellEndIs(v: Text, cp: nat, cs: seq<Text>, tail: Text, rowEnd: nat, r: nat)
    requires cp <= |v| && cs != [] && IsRow(cs, |cs|) && v[cp..] == Cells(cs) + tail && rowEnd == cp + |Cells(cs)|
    requires cp <= r <= |v| && (forall i :: cp <= i < r ==> v[i] != CELL_END) && (r < |v| ==> v[r] == CELL_END)
    ensures var e := if r > rowEnd then rowEnd else r;
      e == cp + |cs[0]| && v[cp..e] == cs[0] && v[e..] == AfterCell(cs[1..]) + tail
  {
    hide Cells;
    CellsSplit(cs);
    var n, more := |cs[0]|, AfterCell(cs[1..]);
    assert cs[0] + more + tail == cs[0] + (more + tail);
    Slices(v, cp, cs[0], more + tail);
    assert IsCell(cs[0]);
    assert forall i :: 0 <= i < n ==> v[cp + i] == cs[0][i] && cs[0][i] in cs[0];
    if |cs| > 1 {
      assert (more + tail)[0] == more[0] == CELL_END;
    } else {
      assert |Cells(cs)| == n;
    }
  }

  /** The text at a position, in two parts. */
  lemma Slices(v: Text, at: nat, a: Text, b: Text)
    requires at <= |v| && v[at..] == a + b
    ensures at + |a| + |b| == |v| && v[at..at + |a|] == a && v[at + |a|..] == b
    ensures (forall i :: 0 <= i < |a| ==> v[at + i] == a[i]) && (b != [] ==> v[at + |a|] == b[0])
  {
    var t := v[at..];
    assert v[at..at + |a|] == t[..|a|] && v[at + |a|..] == t[|a|..];
    assert forall i :: 0 <= i < |a| ==> v[at + i] == t[i];
    assert b != [] ==> v[at + |a|] == t[|a|];
  }

  // ----- entries

  datatype Kind = Unknown | PlainText | Array

  class Entry {
    var value: Option<Text>
    var kind: Kind
    var rowsUsed: nat
    var columns: nat
    /** `NULL` cells are `None`. */
    var data: seq<seq<Option<Text>>>

    constructor (value: Option<Text>)
      ensures this.value == value && kind == Unknown && rowsUsed == 0 && columns == 0 && data == []
    {
      this.value, kind, rowsUsed, columns, data := value, Unknown, 0, 0, [];
    }

    /**
     * The parsing part of `nvram_cache_want_variable`, for any value: a short last row is filled up with empty cells.
     * A short row before it makes the length of a cell negative; then `memcpy` does not return, and `ok` is false.
     */
    method Parse() returns (ok: bool)
      requires value.Some? && IsValue(value.value)
      modifies this`kind, this`rowsUsed, this`columns, this`data
      ensures var g := GridOf(value.value);
        && (ok <==> Regular(g))
        && (|g| == 1 && |g[0]| == 1 ==> kind == (if value.value == [] then Unknown else PlainText) && data == old(data))
        && (|g| > 1 || |g[0]| > 1 ==> kind == Array && rowsUsed == |g| && columns == Widest(g))
        && (ok && (|g| > 1 || |g[0]| > 1) ==> data == Present(Padded(g, Widest(g))))
    {
      hide Cells, Rows, Ticks, IsCell, Present, Padded;
      var v := value.value;
      ghost var g := GridOf(v);
      RowsOfGrid(v);
      GridIsRagged(v);
      var rcount, cmax := CountGrid(v);
      TicksGrid(1, 1, g);
      SmallGrid(g);
      if |v| < 1 {
        kind, ok := Unknown, true;
      } else if rcount == 1 && cmax == 1 {
        kind, ok := PlainText, true;
      } else {
        rowsUsed, columns, kind := rcount, cmax, Array;
        data, ok := ParseRows(v, rcount, cmax, g);
      }
    }

    /** `nvram_entry_sync_value_to_data` */
    method Sync()
      requires kind == Array ==> rowsUsed <= |data| && forall i :: 0 <= i < rowsUsed ==> columns <= |data[i]|
      modifies this`value
      ensures value == if kind == Array then Some(Rows(Shown(data[..rowsUsed], columns))) else old(value)
      ensures kind == Array && rowsUsed >= 1 && columns >= 1 ==>
        |value.value| + 1 == Counted(data[..rowsUsed], columns)
      ensures kind == Array && rowsUsed >= 1 && columns >= 1 && Storable(data[..rowsUsed], columns) ==>
        |GridOf(value.value)| == rowsUsed && forall i :: 0 <= i < rowsUsed ==> |GridOf(value.value)[i]| == columns
      ensures kind == Array && rowsUsed >= 1 && columns >= 1 && Storable(data[..rowsUsed], columns) ==>
        forall i, j :: 0 <= i < rowsUsed && 0 <= j < columns ==>
          GridOf(value.value)[i][j] == if data[i][j].Some? then data[i][j].value else []
    {
      hide Rows, Shown, GridOf, Counted, Storable;
      if kind != Array {
        return;
      }
      var text := PrintRows(data[..rowsUsed], columns);
      value := Some(text);
      if rowsUsed >= 1 && columns >= 1 {
        LengthCounted(data[..rowsUsed], columns);
        if Storable(data[..rowsUsed], columns) {
          ghost var d := data[..rowsUsed];
          ShownReads(d, columns);
          assert forall i :: 0 <= i < rowsUsed ==> d[i] == data[i];
          assert value.value == Rows(Shown(d, columns));
        }
      }
    }
  }

  /** A grid without `NULL` cells. */
  function Present(g: seq<seq<Text>>): seq<seq<Option<Text>>>
  {
    seq(|g|, i requires 0 <= i < |g| => seq(|g[i]|, j requires 0 <= j < |g[i]| => Some(g[i][j])))
  }

  function ShownCell(c: Option<Text>): Text { if c.Some? then c.value else [] }

  function ShownRow(cs: seq<Option<Text>>, columns: nat): (r: seq<Text>)
    requires columns <= |cs|
    ensures |r| == columns
  {
    seq(columns, j requires 0 <= j < columns => ShownCell(cs[j]))
  }

  /** What is printed for a grid: nothing for a `NULL` cell. */
  function Shown(d: seq<seq<Option<Text>>>, columns: nat): (r: seq<seq<Text>>)
    requires forall i :: 0 <= i < |d| ==> columns <= |d[i]|
    ensures |r| == |d|
  {
    seq(|d|, i requires 0 <= i < |d| => ShownRow(d[i], columns))
  }

  /** All rows but the last are as long as the longest. */
  ghost predicate Regular(g: seq<seq<Text>>) { forall i :: 0 <= i < |g| - 1 ==> |g[i]| == Widest(g) }

  /** Short rows filled up with empty cells. */
  function Padded(g: seq<seq<Text>>, columns: nat): (r: seq<seq<Text>>)
    requires forall i :: 0 <= i < |g| ==> |g[i]| <= columns
    ensures |r| == |g| && forall i :: 0 <= i < |g| ==> |r[i]| == columns
  {
    seq(|g|, i requires 0 <= i < |g| => g[i] + Missing(columns - |g[i]|))
  }

  function Missing(n: nat): (r: seq<Text>)
    ensures |r| == n && forall i :: 0 <= i < n ==> r[i] == []
  {
    seq(n, _ => [])
  }

  /** The count of the first loops of `nvram_entry_sync_value_to_data`: each cell, and one byte behind it. */
  function Counted(d: seq<seq<Option<Text>>>, columns: nat): nat
    requires forall i :: 0 <= i < |d| ==> columns <= |d[i]|
  {
    if d == [] then 0 else CountedRow(d[0][..columns]) + Counted(d[1..], columns)
  }

  function CountedRow(cs: seq<Option<Text>>): nat
  {
    if cs == [] then 0 else (match cs[0] case Some(t) => |t| + 1 case None => 1) + CountedRow(cs[1..])
  }

  lemma {:induction false} CellsLength(r: seq<Text>, cs: seq<Option<Text>>)
    requires r == ShownRow(cs, |cs|) && cs != []
    ensures |Cells(r)| + 1 == CountedRow(cs)
    decreases |cs|
  {
    if |cs| > 1 {
      CellsLength(r[1..], cs[1..]);
    }
  }

  /** The text is as long as counted: the cells that are not `NULL`, and a separator between any two. */
  lemma {:induction false} LengthCounted(d: seq<seq<Option<Text>>>, columns: nat)
    requires d != [] && columns >= 1 && forall i :: 0 <= i < |d| ==> columns <= |d[i]|
    ensures |Rows(Shown(d, columns))| + 1 == Counted(d, columns)
    decreases |d|
  {
    hide Cells, CountedRow;
    var g := Shown(d, columns);
    assert g[0] == ShownRow(d[0][..columns], columns);
    CellsLength(g[0], d[0][..columns]);
    if |d| > 1 {
      assert g[1..] == Shown(d[1..], columns);
      LengthCounted(d[1..], columns);
    }
  }

  /** The cells hold no separators. */
  ghost predicate Storable(d: seq<seq<Option<Text>>>, columns: nat)
    requires forall i :: 0 <= i < |d| ==> columns <= |d[i]|
  {
    forall i, j :: 0 <= i < |d| && 0 <= j < columns && d[i][j].Some? ==> IsCell(d[i][j].value)
  }

  /** What was printed is read as the same cells, a `NULL` one as the empty text. */
  lemma ShownReads(d: seq<seq<Option<Text>>>, columns: nat)
    requires d != [] && columns >= 1 && (forall i :: 0 <= i < |d| ==> columns <= |d[i]|) && Storable(d, columns)
    ensures IsGrid(Shown(d, columns), columns)
    ensures var g := GridOf(Rows(Shown(d, columns)));
      && |g| == |d| && (forall i :: 0 <= i < |d| ==> |g[i]| == columns)
      && forall i, j :: 0 <= i < |d| && 0 <= j < columns ==> g[i][j] == if d[i][j].Some? then d[i][j].value else []
  {
    hide Rows, GridOf, IsCell;
    EmptyCell();
    var g := Shown(d, columns);
    assert forall i :: 0 <= i < |g| ==> g[i] == ShownRow(d[i], columns);
    EvenGrid(g, columns);
    GridOfRows(g);
  }

  lemma SmallGrid(g: seq<seq<Text>>)
    requires IsRagged(g)
    ensures |g| == 1 && Widest(g) == 1 <==> |g| == 1 && |g[0]| == 1
    ensures |g| == 1 && |g[0]| == 1 ==> Regular(g) && Rows(g) == g[0][0]
    ensures |g| > 1 || |g[0]| > 1 ==> Rows(g) != []
  {
  }

  method CountGrid(v: Text) returns (rcount: nat, cmax: nat)
    ensures var k := Ticks(Count(1, 1, 1), v);
      rcount == k.rows && cmax == if k.cells > k.most then k.cells else k.most
  {
    var cp, ccount := 0, 1;
    rcount, cmax := 1, 1;
    assert v[0..] == v;
    while cp < |v|
      invariant 0 <= cp <= |v|
      invariant Ticks(Count(1, 1, 1), v) == Ticks(Count(rcount, ccount, cmax), v[cp..])
    {
      assert v[cp..][1..] == v[cp + 1..];
      if v[cp] == CELL_END {
        ccount := ccount + 1;
      } else if v[cp] == ROW_END {
        rcount := rcount + 1;
        if ccount > cmax {
          cmax := ccount;
        }
        ccount := 1;
      }
      cp := cp + 1;
    }
    assert v[cp..] == [];
    if ccount > cmax {
      cmax := ccount;
    }
  }

  method ParseRows(v: Text, rcount: nat, columns: nat, ghost g: seq<seq<Text>>)
    returns (data: seq<seq<Option<Text>>>, ok: bool)
    requires IsRagged(g) && v == Rows(g) && rcount == |g| && columns == Widest(g)
    ensures ok <==> Regular(g)
    ensures ok ==> data == Present(Padded(g, columns))
  {
    hide Cells, Rows, IsCell, AfterRow, AfterCell, Widest;
    WidestBounds(g);
    data := [];
    ghost var all := Present(Padded(g, columns));
    var cp: nat, i := 0, 0;
    assert v[0..] == v && g[0..] == g;
    while i < rcount
      invariant 0 <= i <= rcount && cp <= |v| && data == all[..i]
      invariant v[cp..] == Rows(g[i..]) && forall k :: 0 <= k < i && k < |g| - 1 ==> |g[k]| == columns
    {
      RowsSplit(g[i..]);
      assert g[i..][0] == g[i] && g[i..][1..] == g[i + 1..];
      var row;
      row, cp, ok := ParseRow(v, cp, columns, g[i], g[i + 1..]);
      if !ok {
        return;
      }
      assert row == all[i];
      data := data + [row];
      i := i + 1;
      Finished(g[i..]);
    }
    ok := true;
  }

  lemma WidestBounds(g: seq<seq<Text>>)
    requires IsRagged(g)
    ensures Widest(g) >= 1 && forall i :: 0 <= i < |g| ==> |g[i]| <= Widest(g)
  {
    assert |g[0]| <= Widest(g);
  }

  lemma Finished(g: seq<seq<Text>>)
    ensures g == [] ==> Rows(g) == []
  {
  }

  method ParseRow(v: Text, start: nat, columns: nat, ghost cs: seq<Text>, ghost more: seq<seq<Text>>)
    returns (row: seq<Option<Text>>, cp: nat, ok: bool)
    requires start <= |v| && cs != [] && IsRow(cs, |cs|) && |cs| <= columns && v[start..] == Cells(cs) + AfterRow(more)
    ensures ok <==> |cs| == columns || more == []
    ensures ok ==> |row| == columns && (forall j :: 0 <= j < columns ==> row[j] == Some(CellAt(cs, j)))
    ensures ok ==> cp <= |v| && v[cp..] == Rows(more)
  {
    hide Cells, Rows, IsRow, AtCell, AfterRow;
    cp, row := start, [];
    var rowEnd := StrChrNul(v, cp, ROW_END);
    FirstCellAt(v, cp, cs, more, rowEnd);
    var j := 0;
    while j < columns
      invariant 0 <= j <= columns && cp <= |v| && |row| == j && forall k :: 0 <= k < j ==> row[k] == Some(CellAt(cs, k))
      invariant AtCell(v, cp, cs, j, more, rowEnd) && (j > |cs| ==> more == [])
    {
      var colEnd := StrChrNul(v, cp, CELL_END);
      CellStep(v, cp, cs, j, more, rowEnd, colEnd);
      if colEnd > rowEnd {
        colEnd := rowEnd;
      }
      if colEnd < cp {
        ok := false;
        return;
      }
      var cell := v[cp..colEnd];
      row := row + [Some(cell)];
      cp := colEnd;
      if cp < |v| {
        cp := cp + 1;
      }
      j := j + 1;
    }
    LastCell(v, cp, cs, j, more, rowEnd);
    ok := true;
  }

  /** The cursor before cell `j` of a row that ends at `rowEnd`, or behind the end of the row. */
  ghost predicate AtCell(v: Text, cp: nat, cs: seq<Text>, j: nat, more: seq<seq<Text>>, rowEnd: nat)
  {
    && cp <= |v|
    && (j < |cs| ==> v[cp..] == Cells(cs[j..]) + AfterRow(more) && rowEnd == cp + |Cells(cs[j..])|)
    && (j >= |cs| ==> v[cp..] == Rows(more) && if more == [] then cp == rowEnd == |v| else cp == rowEnd + 1)
  }

  lemma FirstCellAt(v: Text, cp: nat, cs: seq<Text>, more: seq<seq<Text>>, r: nat)
    requires cp <= |v| && v[cp..] == Cells(cs) + AfterRow(more) && cs != [] && IsRow(cs, |cs|)
    requires cp <= r <= |v| && (forall i :: cp <= i < r ==> v[i] != ROW_END) && (r < |v| ==> v[r] == ROW_END)
    ensures AtCell(v, cp, cs, 0, more, r)
  {
    hide Cells, IsRow, Rows, AfterRow;
    RowEndIs(v, cp, cs, more, r);
    assert cs[0..] == cs;
  }

  lemma LastCell(v: Text, cp: nat, cs: seq<Text>, j: nat, more: seq<seq<Text>>, rowEnd: nat)
    requires AtCell(v, cp, cs, j, more, rowEnd) && j >= |cs|
    ensures cp <= |v| && v[cp..] == Rows(more)
  {
  }

  /** One turn of the inner loop; the length of the cell is negative exactly behind the end of a row before the last. */
  lemma CellStep(v: Text, cp: nat, cs: seq<Text>, j: nat, more: seq<seq<Text>>, rowEnd: nat, colEnd: nat)
    requires AtCell(v, cp, cs, j, more, rowEnd) && IsRow(cs, |cs|)
    requires cp <= colEnd <= |v| && forall i :: cp <= i < colEnd ==> v[i] != CELL_END
    requires colEnd < |v| ==> v[colEnd] == CELL_END
    ensures var e := if colEnd > rowEnd then rowEnd else colEnd;
      && (e < cp <==> j >= |cs| && more != [])
      && (e >= cp ==>
            && e <= |v| && v[cp..e] == CellAt(cs, j)
            && AtCell(v, if e < |v| then e + 1 else e, cs, j + 1, more, rowEnd))
  {
    hide Cells, Rows, IsRow, AfterRow, AfterCell;
    if j < |cs| {
      RestOfRow(v, cp, cs, j, more, rowEnd, colEnd);
      var e := if colEnd > rowEnd then rowEnd else colEnd;
      NextCell(v, e, if e < |v| then e + 1 else e, cs[j + 1..], more);
    }
  }

  /** A cell of a row, or an empty one behind its end. */
  function CellAt(cs: seq<Text>, j: nat): Text { if j < |cs| then cs[j] else [] }

  lemma RestOfRow(v: Text, cp: nat, cs: seq<Text>, j: nat, more: seq<seq<Text>>, rowEnd: nat, colEnd: nat)
    requires cp <= |v| && j < |cs| && IsRow(cs, |cs|) && v[cp..] == Cells(cs[j..]) + AfterRow(more)
    requires rowEnd == cp + |Cells(cs[j..])|
    requires cp <= colEnd <= |v| && forall i :: cp <= i < colEnd ==> v[i] != CELL_END
    requires colEnd < |v| ==> v[colEnd] == CELL_END
    ensures var e := if colEnd > rowEnd then rowEnd else colEnd;
      && e == cp + |cs[j]| && v[cp..e] == cs[j] && v[e..] == AfterCell(cs[j + 1..]) + AfterRow(more)
      && (j + 1 < |cs| ==> rowEnd == e + 1 + |Cells(cs[j + 1..])|) && (j + 1 == |cs| ==> rowEnd == e)
  {
    hide Cells, IsCell, AfterRow;
    var rest := cs[j..];
    assert rest[0] == cs[j] && rest[1..] == cs[j + 1..] && IsRow(rest, |rest|);
    CellEndIs(v, cp, rest, AfterRow(more), rowEnd, colEnd);
    CellsSplit(rest);
  }

  /** Past the separator, the cursor is at the next cell or at the next row. */
  lemma NextCell(v: Text, e: nat, cp: nat, cs: seq<Text>, more: seq<seq<Text>>)
    requires e <= |v| && v[e..] == AfterCell(cs) + AfterRow(more) && cp == if e < |v| then e + 1 else e
    ensures cp <= |v|
    ensures cs != [] ==> v[cp..] == Cells(cs) + AfterRow(more) && cp == e + 1
    ensures cs == [] ==> v[cp..] == Rows(more) && (if more == [] then cp == e == |v| else cp == e + 1)
  {
    hide Cells, Rows, AfterRow;
    if cs != [] {
      var rest := Cells(cs) + AfterRow(more);
      Regroup(CELL_END, Cells(cs), AfterRow(more));
      PastOne(v, e, CELL_END, rest);
    } else {
      assert AfterCell(cs) + AfterRow(more) == AfterRow(more);
      RowBegins(more);
      if more != [] {
        PastOne(v, e, ROW_END, Rows(more));
      } else {
        Finished(more);
        assert v[e..] == [];
      }
    }
  }

  lemma Regroup(c: byte, a: Text, b: Text)
    ensures ([c] + a) + b == [c] + (a + b)
  {
  }

  lemma PastOne(v: Text, e: nat, c: byte, rest: Text)
    requires e <= |v| && v[e..] == [c] + rest
    ensures e < |v| && v[e + 1..] == rest
  {
    assert |v[e..]| == 1 + |rest|;
    assert v[e + 1..] == v[e..][1..];
  }

  lemma RowBegins(more: seq<seq<Text>>)
    ensures AfterRow(more) == if more == [] then [] else [ROW_END] + Rows(more)
  {
  }

  method PrintRows(d: seq<seq<Option<Text>>>, columns: nat) returns (text: Text)
    requires forall i :: 0 <= i < |d| ==> columns <= |d[i]|
    ensures text == Rows(Shown(d, columns))
  {
    hide Rows, Cells;
    ghost var g := Shown(d, columns);
    text := [];
    var i := 0;
    Start(g);
    while i < |d|
      invariant 0 <= i <= |d| && Rows(g) == text + (if i == 0 then Rows(g) else AfterRow(g[i..]))
    {
      assert g[i..] != [] && g[i..][0] == g[i] && g[i..][1..] == g[i + 1..];
      RowsSplit(g[i..]);
      if i != 0 {
        text := text + [ROW_END];
      } else {
        assert g[0..] == g;
      }
      assert Rows(g) == text + (Cells(g[i]) + AfterRow(g[i + 1..]));
      Assoc(text, Cells(g[i]), AfterRow(g[i + 1..]));
      text := PrintCells(d[i], columns, text);
      i := i + 1;
    }
    assert i > 0 ==> g[i..] == [];
  }

  lemma Start(g: seq<seq<Text>>)
    ensures Rows(g) == [] + Rows(g) && (g == [] ==> Rows(g) == [])
  {
  }

  method PrintCells(cs: seq<Option<Text>>, columns: nat, text0: Text) returns (text: Text)
    requires columns <= |cs|
    ensures text == text0 + Cells(ShownRow(cs, columns))
  {
    hide Cells;
    ghost var r := ShownRow(cs, columns);
    ghost var goal := text0 + Cells(r);
    text := text0;
    var j := 0;
    StartCells(r);
    while j < columns
      invariant 0 <= j <= columns && goal == text + (if j == 0 then Cells(r) else AfterCell(r[j..]))
    {
      assert r[j..] != [] && r[j..][0] == r[j] && r[j..][1..] == r[j + 1..];
      CellsSplit(r[j..]);
      if j != 0 {
        text := text + [CELL_END];
      } else {
        assert r[0..] == r;
      }
      assert goal == text + (r[j] + AfterCell(r[j + 1..]));
      Assoc(text, r[j], AfterCell(r[j + 1..]));
      if cs[j].Some? {
        text := text + cs[j].value;
      } else {
        assert text + [] == text;
      }
      j := j + 1;
    }
    assert j > 0 ==> r[j..] == [];
  }

  lemma StartCells(r: seq<Text>)
    ensures r == [] ==> Cells(r) == []
  {
  }

  // ----- round trips

  /** Printing a grid that was parsed shows the same cells. */
  lemma ShownPresent(g: seq<seq<Text>>, columns: nat)
    requires IsGrid(g, columns)
    ensures forall i :: 0 <= i < |g| ==> columns <= |Present(g)[i]|
    ensures Shown(Present(g), columns) == g
  {
    forall i | 0 <= i < |g|
      ensures ShownRow(Present(g)[i], columns) == g[i]
    {
    }
  }

  function Separators(n: nat): Text { seq(n, _ => CELL_END) }

  lemma {:induction false} CellsPadded(cs: seq<Text>, n: nat)
    requires cs != []
    ensures Cells(cs + Missing(n)) == Cells(cs) + Separators(n)
    decreases n
  {
    if n == 0 {
      assert cs + Missing(0) == cs && Cells(cs) + Separators(0) == Cells(cs);
    } else {
      CellsPadded(cs, n - 1);
      assert cs + Missing(n) == (cs + Missing(n - 1)) + [[]];
      CellsMore(cs + Missing(n - 1));
      assert Cells(cs) + Separators(n - 1) + [CELL_END] == Cells(cs) + Separators(n);
    }
  }

  lemma {:induction false} CellsMore(cs: seq<Text>)
    requires cs != []
    ensures Cells(cs + [[]]) == Cells(cs) + [CELL_END]
    decreases |cs|
  {
    hide Cells;
    var r := cs + [[]];
    assert r[0] == cs[0] && r[1..] == cs[1..] + [[]];
    CellsSplit(r);
    CellsSplit(cs);
    if |cs| > 1 {
      CellsMore(cs[1..]);
    } else {
      OneCell([]);
      assert r[1..] == [[]];
    }
  }

  lemma {:induction false} RowsPadded(g: seq<seq<Text>>, columns: nat)
    requires IsRagged(g) && (forall i :: 0 <= i < |g| - 1 ==> |g[i]| == columns) && |g[|g| - 1]| <= columns
    ensures Rows(Padded(g, columns)) == Rows(g) + Separators(columns - |g[|g| - 1]|)
    decreases |g|
  {
    hide Rows, Cells, IsRow, AfterRow;
    var p, n := Padded(g, columns), columns - |g[|g| - 1]|;
    RowsSplit(g);
    RowsSplit(p);
    if |g| == 1 {
      CellsPadded(g[0], n);
      RowBegins([]);
      assert g[1..] == [] && p[1..] == [];
    } else {
      assert p[0] == g[0] && p[1..] == Padded(g[1..], columns);
      RowsPadded(g[1..], columns);
      RowBegins(g[1..]);
      RowBegins(p[1..]);
      assert Cells(g[0]) + ([ROW_END] + (Rows(g[1..]) + Separators(n)))
        == Cells(g[0]) + ([ROW_END] + Rows(g[1..])) + Separators(n);
    }
  }

  /** A value on which the parser does not return: the rows `a` and `b c`, with 1 between rows and 2 between cells. */
  lemma ShortRowExample()
    ensures var v: Text := [97, 1, 98, 2, 99];
      IsValue(v) && GridOf(v) == [[[97]], [[98], [99]]] && !Regular(GridOf(v))
  {
    var g: seq<seq<Text>> := [[[97]], [[98], [99]]];
    var b: seq<Text> := [[98], [99]];
    assert Cells(b) == b[0] + [CELL_END] + Cells(b[1..]);
    assert Rows(g) == Cells(g[0]) + [ROW_END] + Rows(g[1..]);
    assert Rows(g) == [97, ROW_END, 98, CELL_END, 99];
    GridOfRows(g);
    assert |g[1]| == 2 && |g[0]| == 1;
  }

  /** Parsing and printing: the value comes back, with the separators that its last row lacks. */
  lemma PrintedBack(v: Text)
    requires IsValue(v) && Regular(GridOf(v))
    ensures var g := GridOf(v);
      var c := Widest(g);
      && IsGrid(Padded(g, c), c) && Shown(Present(Padded(g, c)), c) == Padded(g, c)
      && Rows(Padded(g, c)) == v + Separators(c - |g[|g| - 1]|)
  {
    hide Rows, GridOf, Widest, IsCell, Shown, Present;
    var g := GridOf(v);
    RowsOfGrid(v);
    GridIsRagged(v);
    WidestBounds(g);
    EmptyCell();
    RowsPadded(g, Widest(g));
    ShownPresent(Padded(g, Widest(g)), Widest(g));
  }

  /** A row has one reading as cells. */
  lemma {:induction false} CellsInjective(a: seq<Text>, b: seq<Text>)
    requires a != [] && b != [] && IsRow(a, |a|) && IsRow(b, |b|) && Cells(a) == Cells(b)
    ensures a == b
    decreases |a|
  {
    hide IsCell;
    if |a| > 1 && |b| > 1 {
      CellClean(a[0]);
      CellClean(b[0]);
      FirstCell(a[0], Cells(a[1..]), b[0], Cells(b[1..]), CELL_END);
      CellsInjective(a[1..], b[1..]);
      assert a == [a[0]] + a[1..] && b == [b[0]] + b[1..];
    } else {
      HasEnd(a);
      HasEnd(b);
    }
  }

  lemma CellClean(c: Text)
    requires IsCell(c)
    ensures CELL_END !in c
  {
  }

  lemma HasEnd(a: seq<Text>)
    requires a != [] && IsRow(a, |a|)
    ensures |a| == 1 <==> CELL_END !in Cells(a)
    ensures |a| == 1 ==> Cells(a) == a[0]
  {
    if |a| > 1 {
      assert Cells(a)[|a[0]|] == CELL_END;
    } else {
      assert IsCell(a[0]);
    }
  }

  lemma FirstCell(a: Text, s: Text, b: Text, t: Text, sep: byte)
    requires sep !in a && sep !in b && a + [sep] + s == b + [sep] + t
    ensures a == b && s == t
  {
    var u := a + [sep] + s;
    assert forall i :: 0 <= i < |a| ==> u[i] == a[i] && a[i] in a;
    assert forall i :: 0 <= i < |b| ==> u[i] == b[i] && b[i] in b;
    assert u[|a|] == sep && u[|b|] == sep;
    assert a == u[..|a|] && b == u[..|b|] && s == u[|a| + 1..] && t == u[|b| + 1..];
  }

  /** A value has one reading as a grid: its rows, their lengths and their cells. */
  lemma {:induction false} GridDetermined(g: seq<seq<Text>>, h: seq<seq<Text>>)
    requires IsRagged(g) && IsRagged(h) && Rows(g) == Rows(h)
    ensures g == h
    decreases |g|
  {
    hide Cells, IsCell;
    RowClean(g[0]);
    RowClean(h[0]);
    if |g| > 1 && |h| > 1 {
      FirstCell(Cells(g[0]), Rows(g[1..]), Cells(h[0]), Rows(h[1..]), ROW_END);
      CellsInjective(g[0], h[0]);
      GridDetermined(g[1..], h[1..]);
      assert g == [g[0]] + g[1..] && h == [h[0]] + h[1..];
    } else {
      HasRowEnd(g);
      HasRowEnd(h);
      CellsInjective(g[0], h[0]);
    }
  }

  lemma HasRowEnd(g: seq<seq<Text>>)
    requires IsRagged(g)
    ensures |g| == 1 <==> ROW_END !in Rows(g)
    ensures |g| == 1 ==> Rows(g) == Cells(g[0])
  {
    hide Cells, IsCell;
    RowClean(g[0]);
    if |g| > 1 {
      assert Rows(g)[|Cells(g[0])|] == ROW_END;
    }
  }

  /** Reading back what was printed. */
  lemma GridOfRows(g: seq<seq<Text>>)
    requires IsRagged(g)
    ensures GridOf(Rows(g)) == g
  {
    hide Rows, GridOf;
    RaggedIsValue(g);
    RowsOfGrid(Rows(g));
    GridIsRagged(Rows(g));
    GridDetermined(GridOf(Rows(g)), g);
  }

  lemma {:induction false} RaggedIsValue(g: seq<seq<Text>>)
    requires IsRagged(g)
    ensures IsValue(Rows(g))
    decreases |g|
  {
    hide Cells, IsCell;
    CellsIsValue(g[0]);
    if |g| > 1 {
      RaggedIsValue(g[1..]);
    }
  }

  /** An even grid is regular, and nothing is missing. */
  lemma EvenGrid(g: seq<seq<Text>>, columns: nat)
    requires IsGrid(g, columns)
    ensures IsRagged(g) && Widest(g) == columns && Regular(g) && Padded(g, columns) == g
  {
    hide IsCell;
    assert forall i :: 0 <= i < |g| ==> g[i] + Missing(0) == g[i];
  }

  lemma {:induction false} CellsIsValue(cs: seq<Text>)
    requires IsRow(cs, |cs|)
    ensures IsValue(Cells(cs))
    decreases |cs|
  {
    if |cs| > 1 {
      CellsIsValue(cs[1..]);
    }
  }
}
