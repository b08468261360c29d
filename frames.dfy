/**
 * A data frame that the cleaning scripts change step by step: the header is
 * overwritten, columns are overwritten one at a time, and the frame is rebound
 * to the result of a whole-table `replace` or `dropna`. Each method is tied to
 * the table function of the same step.
 */
module Frames {
  import opened Wrappers
  import opened Seqs
  import opened Tables

  class Frame {
    var header: seq<string>
    var rows: seq<Row>

    /** The frame's current contents as a table value. */
    function View(): Table
      reads this
    {
      Table(header, rows)
    }

    constructor (t: Table)
      ensures View() == t
    {
      header := t.header;
      rows := t.rows;
    }

    /** `df.columns = [c.strip().lower().replace(" ", "_") for c in df.columns]`. */
    method RenameColumns()
      modifies this
      ensures View() == CleanColumns(old(View()))
    {
      var renamed: seq<string> := [];
      var i := 0;
      while i < |header|
        invariant 0 <= i <= |header| && |renamed| == i
        invariant forall k :: 0 <= k < i ==> renamed[k] == NormalizeName(header[k])
      {
        renamed := renamed + [NormalizeName(header[i])];
        i := i + 1;
      }
      header := renamed;
    }

    /** `df = df.replace(...)`: every cell goes through `f`. */
    method Replace(f: Cell -> Cell)
      modifies this
      ensures View() == MapCells(old(View()), f)
    {
      rows := MapCells(View(), f).rows;
    }

    /** `df[name] = f(df[name])` for a name that is in the header: the cells under it are rewritten. */
    method Overwrite(name: string, f: Cell -> Cell)
      modifies this
      ensures View() == MapNamed(old(View()), name, f)
    {
      ghost var t := View();
      ghost var r := MapNamed(t, name, f);
      var i := 0;
      while i < |rows|
        invariant header == t.header && |rows| == |t.rows| && 0 <= i <= |rows|
        invariant forall k :: 0 <= k < i ==> rows[k] == r.rows[k]
        invariant forall k :: i <= k < |rows| ==> rows[k] == t.rows[k]
      {
        var row := rows[i];
        var j := 0;
        while j < |row|
          invariant 0 <= j <= |row| && |row| == |t.rows[i]|
          invariant forall m :: 0 <= m < j ==> row[m] == r.rows[i][m]
          invariant forall m :: j <= m < |row| ==> row[m] == t.rows[i][m]
        {
          if j < |header| && header[j] == name {
            row := row[j := f(row[j])];
          }
          j := j + 1;
        }
        rows := rows[i := row];
        i := i + 1;
      }
    }

    /**
     * A typed conversion of one column: on success the frame holds the converted
     * table; when the conversion raises, the frame is left as it was.
     */
    method Convert(name: string, f: Cell -> Cell, absent: Absence) returns (status: Outcome<Failure>)
      modifies this
      ensures match ConvertColumn(old(View()), name, f, absent)
        case Ok(t) => status == Pass && View() == t
        case Err(e) => status == Fail(e) && View() == old(View())
    {
      var n := Occurrences(header, name);
      if n == 0 {
        status := if absent == Skip then Pass else Fail(MissingColumn(name));
      } else if n == 1 {
        Overwrite(name, f);
        status := Pass;
      } else {
        status := Fail(RepeatedColumn(name));
      }
    }

    /** `df[name] = df[name].fillna(...)`: raises `KeyError` when no column has that name. */
    method Fill(name: string, f: Cell -> Cell) returns (status: Outcome<Failure>)
      modifies this
      ensures match FillColumn(old(View()), name, f)
        case Ok(t) => status == Pass && View() == t
        case Err(e) => status == Fail(e) && View() == old(View())
    {
      if name in header {
        Overwrite(name, f);
        status := Pass;
      } else {
        status := Fail(MissingColumn(name));
      }
    }

    /** `df = df.dropna(how="all")`: the rows holding a value are kept, in order. */
    method DropEmptyRows()
      modifies this
      ensures View() == Tables.DropEmptyRows(old(View()))
    {
      var all := rows;
      var kept: seq<Row> := [];
      var i := 0;
      while i < |all|
        invariant 0 <= i <= |all| && all == old(rows) && header == old(header)
        invariant kept == Filter(all[..i], HasValue)
      {
        assert all[..i + 1] == all[..i] + [all[i]];
        FilterConcat(all[..i], [all[i]], HasValue);
        FilterSingleton(all[i], HasValue);
        if HasValue(all[i]) {
          kept := kept + [all[i]];
        }
        i := i + 1;
      }
      assert all[..i] == all;
      rows := kept;
    }
  }
}
