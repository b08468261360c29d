/**
 * csvt.py: the basic clean-up. The header of the frame is renamed in place;
 * `replace` and `dropna` then return new tables: empty cells become null and the
 * rows left with no value are dropped.
 */
module Csvt {
  import opened Seqs
  import opened Tables
  import opened Frames

  /** `replace({"": None})` on one cell. */
  function NullEmpty(c: Cell): (r: Cell)
    ensures r == Null <==> c == Null || c == Text("")
    ensures r != Null ==> r == c
  {
    NullIfToken(c, [""])
  }

  /** The whole script on an in-memory table. */
  function Clean(t: Table): (r: Table)
    ensures r.header == RenameHeader(t.header) && |r.rows| <= |t.rows|
    ensures forall i :: 0 <= i < |r.rows| ==> HasValue(r.rows[i])
  {
    DropEmptyRows(MapCells(CleanColumns(t), NullEmpty))
  }

  /**
   * The script: the frame's header is overwritten, and the cleaned table is the
   * result of the two table-returning calls.
   */
  method Run(df: Frame) returns (cleaned: Table)
    modifies df
    ensures df.View() == CleanColumns(old(df.View()))
    ensures cleaned == Clean(old(df.View()))
  {
    df.RenameColumns();
    var replaced := MapCells(df.View(), NullEmpty);
    cleaned := DropEmptyRows(replaced);
  }

  // ---------------------------------------------------------------- properties

  /** A row holds a field that is neither missing nor empty. */
  predicate HasField(row: Row) {
    exists c :: c in row && c != Null && c != Text("")
  }

  /** `replace({"": None})` on a sequence of rows. */
  function NullEmptyRows(rows: seq<Row>): (r: seq<Row>)
    ensures |r| == |rows|
    ensures forall i :: 0 <= i < |rows| ==> |r[i]| == |rows[i]|
    ensures forall i, j :: 0 <= i < |rows| && 0 <= j < |rows[i]| ==> r[i][j] == NullEmpty(rows[i][j])
  {
    if rows == [] then []
    else [seq(|rows[0]|, j requires 0 <= j < |rows[0]| => NullEmpty(rows[0][j]))] + NullEmptyRows(rows[1..])
  }

  /** A row keeps a value after the replace exactly when it held a non-empty field. */
  lemma NullEmptyRowHasValue(rows: seq<Row>, i: nat)
    requires i < |rows|
    ensures HasValue(NullEmptyRows(rows)[i]) <==> HasField(rows[i])
  {
    ReplacedRowHasValue(rows[i], NullEmptyRows(rows)[i]);
  }

  /** The same for one row and its replaced copy. */
  lemma ReplacedRowHasValue(row: Row, r: Row)
    requires |r| == |row| && forall j :: 0 <= j < |row| ==> r[j] == NullEmpty(row[j])
    ensures HasValue(r) <==> HasField(row)
  {
    if HasField(row) {
      var c :| c in row && c != Null && c != Text("");
      var j :| 0 <= j < |row| && row[j] == c;
      assert r[j] == c && r[j] in r;
    }
    if HasValue(r) {
      var c :| c in r && c != Null;
      var j :| 0 <= j < |r| && r[j] == c;
      assert row[j] in row;
    }
  }

  /** The replace works row by row. */
  lemma NullEmptyRowsCons(row: Row, rest: seq<Row>)
    ensures NullEmptyRows([row] + rest) == NullEmptyRows([row]) + NullEmptyRows(rest)
  {
    assert ([row] + rest)[1..] == rest;
    assert [row][1..] == [];
  }

  /** Replacing then dropping is dropping the rows with no field, then replacing. */
  lemma {:induction false} DropAfterReplace(rows: seq<Row>)
    ensures Filter(NullEmptyRows(rows), HasValue) == NullEmptyRows(Filter(rows, HasField))
  {
    if rows != [] {
      var replaced := NullEmptyRows(rows);
      var head := NullEmptyRows([rows[0]]);
      assert rows == [rows[0]] + rows[1..];
      NullEmptyRowsCons(rows[0], rows[1..]);
      assert replaced == head + NullEmptyRows(rows[1..]);
      assert replaced[0] == head[0] && replaced[1..] == NullEmptyRows(rows[1..]);
      NullEmptyRowHasValue(rows, 0);
      DropAfterReplace(rows[1..]);
      var kept := Filter(rows[1..], HasField);
      assert Filter(replaced, HasValue) == (if HasField(rows[0]) then head else []) + NullEmptyRows(kept);
      if HasField(rows[0]) {
        assert Filter(rows, HasField) == [rows[0]] + kept;
        NullEmptyRowsCons(rows[0], kept);
      } else {
        assert Filter(rows, HasField) == kept;
      }
    }
  }

  /** The table-wide replace and the row-wise one agree. */
  lemma ReplaceIsRowWise(t: Table)
    ensures MapCells(t, NullEmpty).rows == NullEmptyRows(t.rows)
  {
    var a := MapCells(t, NullEmpty).rows;
    var b := NullEmptyRows(t.rows);
    forall i | 0 <= i < |t.rows| ensures a[i] == b[i] {
      assert |a[i]| == |b[i]|;
    }
  }

  /**
   * The cleaned table has the renamed header and, in their original order, exactly
   * the rows that held a non-empty field, with their empty cells nulled.
   */
  lemma CleanKeepsFieldRows(t: Table)
    ensures Clean(t).header == RenameHeader(t.header)
    ensures Clean(t).rows == NullEmptyRows(Filter(t.rows, HasField))
  {
    ReplaceIsRowWise(CleanColumns(t));
    DropAfterReplace(t.rows);
  }

  /** The cleaned table holds no empty text and no row without a value. */
  lemma CleanIsClean(t: Table)
    ensures forall i, j :: 0 <= i < |Clean(t).rows| && 0 <= j < |Clean(t).rows[i]| ==> Clean(t).rows[i][j] != Text("")
    ensures forall i :: 0 <= i < |Clean(t).rows| ==> HasValue(Clean(t).rows[i])
  {
    var replaced := MapCells(CleanColumns(t), NullEmpty);
    forall i, j | 0 <= i < |Clean(t).rows| && 0 <= j < |Clean(t).rows[i]| ensures Clean(t).rows[i][j] != Text("") {
      var row := Clean(t).rows[i];
      assert row in replaced.rows;
      var k :| 0 <= k < |replaced.rows| && replaced.rows[k] == row;
      assert row[j] == NullEmpty(CleanColumns(t).rows[k][j]);
    }
  }

  /** Cleaning a cleaned table changes nothing. */
  lemma CleanIdempotent(t: Table)
    ensures Clean(Clean(t)) == Clean(t)
  {
    var c := Clean(t);
    RenameHeaderIdempotent(t.header);
    assert CleanColumns(c) == c;
    CleanIsClean(t);
    var replaced := MapCells(c, NullEmpty);
    forall i | 0 <= i < |c.rows| ensures replaced.rows[i] == c.rows[i] {
      assert |replaced.rows[i]| == |c.rows[i]|;
    }
    assert replaced == c;
    FilterKeepsAll(c.rows, HasValue);
  }
}
