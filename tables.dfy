/**
 * The in-memory table the CSV cleaning scripts work on, once `pd.read_csv` has
 * produced it, and the table operations the scripts share: the header rename,
 * cell-wise replacement, column conversion and `dropna(how="all")`.
 */
module Tables {
  import opened Wrappers
  import opened Seqs
  import opened PyText
  import opened Numerals
  import opened Calendar

  /** One value of the table: pandas' `None`/`NaN`/`NaT`/`<NA>` are all `Null`. */
  datatype Cell =
    | Null
    | Text(text: string)
    | Int(n: int)
    | Bool(b: bool)
    | Dec(d: Decimal)
    | Date(date: CalendarDate)

  type Row = seq<Cell>

  /** Column names in order, and the rows, each holding one cell per column. */
  datatype Table = Table(header: seq<string>, rows: seq<Row>)

  /**
   * What stops a script: a column it reads unconditionally is missing, a name picks
   * several columns, or the `.str` accessor meets a column pandas holds as boolean.
   */
  datatype Failure = MissingColumn(name: string) | RepeatedColumn(name: string) | NotText(name: string)

  /** Every row has one cell per column, as `pd.read_csv` produces. */
  predicate Rectangular(t: Table) {
    forall i :: 0 <= i < |t.rows| ==> |t.rows[i]| == |t.header|
  }

  // ---------------------------------------------------------------- header

  /** `c.strip().lower().replace(" ", "_")` */
  function NormalizeName(c: string): (r: string)
    ensures ' ' !in r
  {
    ReplaceChar(Lower(Strip(c)), ' ', '_')
  }

  /** Normalizing a name that is already normalized changes nothing. */
  lemma NormalizeNameIdempotent(c: string)
    ensures NormalizeName(NormalizeName(c)) == NormalizeName(c)
  {
    var r := NormalizeName(c);
    NormalizedTrimmed(c);
    StripTrimmed(r);
    NormalizedLowered(c);
    assert ReplaceChar(r, ' ', '_') == r;
  }

  /** A normalized name neither starts nor ends with whitespace. */
  lemma NormalizedTrimmed(c: string)
    ensures var r := NormalizeName(c); r == [] || (!IsSpace(r[0]) && !IsSpace(r[|r| - 1]))
  {
    var s := Strip(c);
    var r := ReplaceChar(Lower(s), ' ', '_');
    if r != [] {
      LowerKeepsSpaces(s[0]);
      LowerKeepsSpaces(s[|s| - 1]);
    }
  }

  /** A normalized name is already lower-case. */
  lemma NormalizedLowered(c: string)
    ensures Lower(NormalizeName(c)) == NormalizeName(c)
  {
    var l := Lower(Strip(c));
    var r := ReplaceChar(l, ' ', '_');
    forall k | 0 <= k < |r| ensures LowerChar(r[k]) == r[k] {
      assert r[k] == '_' || r[k] == l[k];
    }
  }

  /** The list comprehension over `df.columns`: one new name per old name, same order. */
  function RenameHeader(h: seq<string>): (r: seq<string>)
    ensures |r| == |h|
    ensures forall i :: 0 <= i < |h| ==> r[i] == NormalizeName(h[i])
  {
    if h == [] then [] else [NormalizeName(h[0])] + RenameHeader(h[1..])
  }

  /** Renaming a renamed header gives the same header. */
  lemma RenameHeaderIdempotent(h: seq<string>)
    ensures RenameHeader(RenameHeader(h)) == RenameHeader(h)
  {
    var r := RenameHeader(h);
    forall i | 0 <= i < |h| ensures RenameHeader(r)[i] == r[i] {
      NormalizeNameIdempotent(h[i]);
    }
  }

  /** The table with its header renamed and its rows untouched. */
  function CleanColumns(t: Table): (r: Table)
    ensures r.rows == t.rows && |r.header| == |t.header|
    ensures forall i :: 0 <= i < |t.header| ==> r.header[i] == NormalizeName(t.header[i])
    ensures forall i :: 0 <= i < |r.header| ==> ' ' !in r.header[i]
  {
    Table(RenameHeader(t.header), t.rows)
  }

  // ---------------------------------------------------------------- cells

  /** `replace({token: None for token in tokens})` on one cell: a whole-cell, case-sensitive match. */
  function NullIfToken(c: Cell, tokens: seq<string>): (r: Cell)
    ensures r == Null <==> c == Null || (c.Text? && c.text in tokens)
    ensures r != Null ==> r == c
  {
    if c.Text? && c.text in tokens then Null else c
  }

  /** `f` applied to every cell; the header and the shape stay. */
  function MapCells(t: Table, f: Cell -> Cell): (r: Table)
    ensures r.header == t.header && |r.rows| == |t.rows|
    ensures forall i :: 0 <= i < |t.rows| ==> |r.rows[i]| == |t.rows[i]|
    ensures forall i, j :: 0 <= i < |t.rows| && 0 <= j < |t.rows[i]| ==> r.rows[i][j] == f(t.rows[i][j])
  {
    Table(t.header, seq(|t.rows|, i requires 0 <= i < |t.rows| =>
      seq(|t.rows[i]|, j requires 0 <= j < |t.rows[i]| => f(t.rows[i][j]))))
  }

  /** The cell at column `j` of a row is in a column called `name`. */
  predicate InColumn(t: Table, j: int, name: string) {
    0 <= j < |t.header| && t.header[j] == name
  }

  /** `df[name] = f(df[name])`: `f` applied to the cells of the columns called `name`. */
  function MapNamed(t: Table, name: string, f: Cell -> Cell): (r: Table)
    ensures r.header == t.header && |r.rows| == |t.rows|
    ensures forall i :: 0 <= i < |t.rows| ==> |r.rows[i]| == |t.rows[i]|
    ensures forall i, j :: 0 <= i < |t.rows| && 0 <= j < |t.rows[i]| ==>
      r.rows[i][j] == if InColumn(t, j, name) then f(t.rows[i][j]) else t.rows[i][j]
  {
    Table(t.header, seq(|t.rows|, i requires 0 <= i < |t.rows| =>
      seq(|t.rows[i]|, j requires 0 <= j < |t.rows[i]| =>
        if InColumn(t, j, name) then f(t.rows[i][j]) else t.rows[i][j])))
  }

  /** How many columns are called `name`. */
  function Occurrences(h: seq<string>, name: string): (n: nat)
    ensures n == 0 <==> name !in h
  {
    if h == [] then 0
    else
      assert name in h <==> h[0] == name || name in h[1..];
      (if h[0] == name then 1 else 0) + Occurrences(h[1..], name)
  }

  /** The name is repeated exactly when two different positions of the header hold it. */
  lemma {:induction false} OccurrencesTwice(h: seq<string>, name: string)
    ensures Occurrences(h, name) >= 2 <==> exists i, j :: 0 <= i < j < |h| && h[i] == name && h[j] == name
  {
    if h != [] {
      var tail := h[1..];
      OccurrencesTwice(tail, name);
      if Occurrences(h, name) >= 2 {
        if h[0] == name {
          var k :| 0 <= k < |tail| && tail[k] == name;
          assert h[0] == name && h[k + 1] == name;
        } else {
          var i, j :| 0 <= i < j < |tail| && tail[i] == name && tail[j] == name;
          assert h[i + 1] == name && h[j + 1] == name;
        }
      }
      if exists i, j :: 0 <= i < j < |h| && h[i] == name && h[j] == name {
        var i, j :| 0 <= i < j < |h| && h[i] == name && h[j] == name;
        if i == 0 {
          assert tail[j - 1] == name;
        } else {
          assert tail[i - 1] == name && tail[j - 1] == name;
        }
      }
    }
  }

  /** None of `names` picks several columns of the header. */
  predicate Unrepeated(h: seq<string>, names: seq<string>) {
    forall k :: 0 <= k < |names| ==> Occurrences(h, names[k]) <= 1
  }

  /** Each of `names` picks exactly one column of the header. */
  predicate PresentOnce(h: seq<string>, names: seq<string>) {
    forall k :: 0 <= k < |names| ==> Occurrences(h, names[k]) == 1
  }

  /** What a conversion does when its column is missing: skip it (`if col in df.columns`) or raise `KeyError`. */
  datatype Absence = Skip | Raise

  /**
   * `df[name] = f(df[name])`, possibly guarded by `if name in df.columns`. When the name
   * picks several columns, `df[name]` is a frame and the conversion raises.
   */
  function ConvertColumn(t: Table, name: string, f: Cell -> Cell, absent: Absence): (r: Result<Table, Failure>)
    ensures name !in t.header ==> r == if absent == Skip then Ok(t) else Err(MissingColumn(name))
    ensures r.Ok? ==> Occurrences(t.header, name) <= 1 && r.value.header == t.header
    ensures r.Ok? ==> |r.value.rows| == |t.rows|
    ensures r.Err? <==> Occurrences(t.header, name) >= 2 || (absent == Raise && name !in t.header)
    ensures Occurrences(t.header, name) >= 2 ==> r == Err(RepeatedColumn(name))
    ensures Occurrences(t.header, name) == 1 ==>
      && r.Ok?
      && (forall i :: 0 <= i < |t.rows| ==> |r.value.rows[i]| == |t.rows[i]|)
      && (forall i, j :: 0 <= i < |t.rows| && 0 <= j < |t.rows[i]| ==>
            r.value.rows[i][j] == if InColumn(t, j, name) then f(t.rows[i][j]) else t.rows[i][j])
  {
    var n := Occurrences(t.header, name);
    if n == 0 then (if absent.Skip? then Ok(t) else Err(MissingColumn(name)))
    else if n == 1 then Ok(MapNamed(t, name, f))
    else Err(RepeatedColumn(name))
  }

  /** `df[name] = df[name].fillna(...)`: raises when the column is missing; fills every column of that name. */
  function FillColumn(t: Table, name: string, f: Cell -> Cell): (r: Result<Table, Failure>)
    ensures r.Err? <==> name !in t.header
    ensures r.Ok? ==> r.value == MapNamed(t, name, f)
  {
    if name in t.header then Ok(MapNamed(t, name, f)) else Err(MissingColumn(name))
  }

  /** Every cell of the columns called `name` satisfies `p`. */
  ghost predicate ColumnHolds(t: Table, name: string, p: Cell -> bool) {
    forall i, j :: 0 <= i < |t.rows| && 0 <= j < |t.rows[i]| && InColumn(t, j, name) ==> p(t.rows[i][j])
  }

  /** A conversion whose results all satisfy `p` leaves only such cells in its column. */
  lemma ConvertColumnEstablishes(t: Table, name: string, f: Cell -> Cell, absent: Absence, p: Cell -> bool)
    requires ConvertColumn(t, name, f, absent).Ok?
    requires forall c :: p(f(c))
    ensures ColumnHolds(ConvertColumn(t, name, f, absent).value, name, p)
  {
  }

  /** A conversion leaves the columns of every other name as they were. */
  lemma ConvertColumnKeeps(t: Table, name: string, f: Cell -> Cell, absent: Absence, other: string, p: Cell -> bool)
    requires ConvertColumn(t, name, f, absent).Ok?
    requires other != name && ColumnHolds(t, other, p)
    ensures ColumnHolds(ConvertColumn(t, name, f, absent).value, other, p)
  {
    var r := ConvertColumn(t, name, f, absent).value;
    forall i, j | 0 <= i < |r.rows| && 0 <= j < |r.rows[i]| && InColumn(r, j, other)
      ensures p(r.rows[i][j])
    {
      assert r.header == t.header && |r.rows| == |t.rows| && |r.rows[i]| == |t.rows[i]|;
      assert InColumn(t, j, other) && !InColumn(t, j, name);
      assert r.rows[i][j] == t.rows[i][j];
    }
  }

  /** Cell-wise maps, column conversions and fills keep the table rectangular. */
  lemma MapNamedRectangular(t: Table, name: string, f: Cell -> Cell)
    requires Rectangular(t)
    ensures Rectangular(MapNamed(t, name, f))
  {
  }

  /** Rewriting the columns of one name leaves the columns of every other name as they were. */
  lemma MapNamedKeeps(t: Table, name: string, f: Cell -> Cell, other: string, p: Cell -> bool)
    requires other != name && ColumnHolds(t, other, p)
    ensures ColumnHolds(MapNamed(t, name, f), other, p)
  {
    var r := MapNamed(t, name, f);
    forall i, j | 0 <= i < |r.rows| && 0 <= j < |r.rows[i]| && InColumn(r, j, other)
      ensures p(r.rows[i][j])
    {
      assert InColumn(t, j, other) && !InColumn(t, j, name);
    }
  }

  /** A conversion that succeeds keeps the table rectangular. */
  lemma ConvertColumnRectangular(t: Table, name: string, f: Cell -> Cell, absent: Absence)
    requires Rectangular(t) && ConvertColumn(t, name, f, absent).Ok?
    ensures Rectangular(ConvertColumn(t, name, f, absent).value)
  {
    MapNamedRectangular(t, name, f);
  }

  lemma MapCellsRectangular(t: Table, f: Cell -> Cell)
    requires Rectangular(t)
    ensures Rectangular(MapCells(t, f))
  {
  }

  // ---------------------------------------------------------------- rows

  /** The row holds at least one non-null cell. */
  predicate HasValue(row: Row) {
    exists c :: c in row && c != Null
  }

  /** `dropna(how="all")`: the rows with at least one non-null cell, in their original order. */
  function DropEmptyRows(t: Table): (r: Table)
    ensures r.header == t.header && |r.rows| <= |t.rows|
    ensures forall i :: 0 <= i < |r.rows| ==> r.rows[i] in t.rows && HasValue(r.rows[i])
    ensures forall i :: 0 <= i < |t.rows| && HasValue(t.rows[i]) ==> t.rows[i] in r.rows
  {
    Table(t.header, Filter(t.rows, HasValue))
  }

  /** Dropping works row by row: the kept rows of two blocks are those of the first, then those of the second. */
  lemma DropEmptyRowsOrder(h: seq<string>, a: seq<Row>, b: seq<Row>)
    ensures DropEmptyRows(Table(h, a + b)).rows == DropEmptyRows(Table(h, a)).rows + DropEmptyRows(Table(h, b)).rows
    ensures DropEmptyRows(Table(h, [])).rows == []
  {
    FilterConcat(a, b, HasValue);
  }

  /** A single row survives exactly when it holds a value. */
  lemma DropEmptyRowsOne(h: seq<string>, row: Row)
    ensures DropEmptyRows(Table(h, [row])).rows == if HasValue(row) then [row] else []
  {
    FilterSingleton(row, HasValue);
  }

  /** Dropping twice is dropping once. */
  lemma DropEmptyRowsIdempotent(t: Table)
    ensures DropEmptyRows(DropEmptyRows(t)) == DropEmptyRows(t)
  {
    FilterIdempotent(t.rows, HasValue);
  }

  /** Dropping rows keeps a property of a column's cells. */
  lemma DropEmptyRowsHolds(t: Table, name: string, p: Cell -> bool)
    requires ColumnHolds(t, name, p)
    ensures ColumnHolds(DropEmptyRows(t), name, p)
  {
    var r := DropEmptyRows(t);
    forall i, j | 0 <= i < |r.rows| && 0 <= j < |r.rows[i]| && InColumn(r, j, name)
      ensures p(r.rows[i][j])
    {
      var k :| 0 <= k < |t.rows| && t.rows[k] == r.rows[i];
      assert InColumn(t, j, name);
    }
  }

  /** Dropping keeps the table rectangular. */
  lemma DropEmptyRowsRectangular(t: Table)
    requires Rectangular(t)
    ensures Rectangular(DropEmptyRows(t))
  {
    var r := DropEmptyRows(t);
    forall i | 0 <= i < |r.rows| ensures |r.rows[i]| == |r.header| {
      var k :| 0 <= k < |t.rows| && t.rows[k] == r.rows[i];
    }
  }

  /** When some column has no null at all, no row is dropped. */
  lemma DropEmptyRowsKeepsAll(t: Table, j: nat)
    requires Rectangular(t) && j < |t.header|
    requires forall i :: 0 <= i < |t.rows| ==> t.rows[i][j] != Null
    ensures DropEmptyRows(t) == t
  {
    forall i | 0 <= i < |t.rows| ensures HasValue(t.rows[i]) {
      assert t.rows[i][j] in t.rows[i];
    }
    FilterKeepsAll(t.rows, HasValue);
  }

  /** The cell holds a value. */
  predicate NonNull(c: Cell) {
    c != Null
  }

  /** When a column of the header holds no null, `dropna(how="all")` drops no row. */
  lemma FullColumnKeepsRows(t: Table, name: string)
    requires Rectangular(t) && name in t.header && ColumnHolds(t, name, NonNull)
    ensures DropEmptyRows(t) == t
  {
    var j :| 0 <= j < |t.header| && t.header[j] == name;
    forall i | 0 <= i < |t.rows| ensures t.rows[i][j] != Null {
      assert InColumn(t, j, name);
      assert NonNull(t.rows[i][j]);
    }
    DropEmptyRowsKeepsAll(t, j);
  }
}
