/**
 * parse_csv.py: a script that renames the header, nulls eight missing-value
 * tokens, replaces four boolean words everywhere, converts six columns that must
 * all be present (a missing one raises `KeyError`), reads dates only as
 * year-month-day, fills `newsletter_ok` with false and drops the all-null rows.
 */
module ParseCsv {
  import opened Wrappers
  import opened PyText
  import opened Numerals
  import opened Calendar
  import opened Tables
  import opened Coercions
  import opened Frames

  /** The first `replace`: these whole cells become `None`. */
  const MissingTokens: seq<string> := ["", "None", "Nan", "nan", "N/A", "n/a", "NA", "na"]

  /** The second `replace`: these whole cells become Python booleans, in every column. */
  const BoolWords: map<string, bool> := map["true" := true, "false" := false, "oui" := true, "non" := false]

  /** No boolean word is also a missing-value token. */
  lemma BoolWordsKeys()
    ensures BoolWords.Keys == {"true", "false", "oui", "non"}
    ensures forall w :: w in BoolWords ==> w !in MissingTokens
  {
  }

  /** One cell of the first `replace` (parse_csv.py:21-27). */
  function NullMissing(c: Cell): Cell {
    NullIfToken(c, MissingTokens)
  }

  /** One cell of `df.replace({"true": True, "false": False, "oui": True, "non": False})`. */
  function BoolWord(c: Cell): (r: Cell)
    ensures c.Text? && c.text in BoolWords ==> r == Bool(BoolWords[c.text])
    ensures !(c.Text? && c.text in BoolWords) ==> r == c
  {
    if c.Text? && c.text in BoolWords then Bool(BoolWords[c.text]) else c
  }

  /** `pd.to_datetime(..., errors="coerce", format="%Y-%m-%d")` on one cell. */
  function IsoDate(c: Cell): (r: Cell)
    ensures IsDateOrNull(r)
    ensures r.Date? <==> c.Text? && ParseIsoDate(c.text).Some?
  {
    DateCell(ParseIsoDate, c)
  }

  /**
   * The header rename and the two whole-table replacements: afterwards no text cell is a
   * missing-value token or a boolean word, and every boolean word has become its boolean.
   */
  function Prepare(t: Table): (r: Table)
    ensures r.header == RenameHeader(t.header) && |r.rows| == |t.rows|
    ensures forall i :: 0 <= i < |t.rows| ==> |r.rows[i]| == |t.rows[i]|
    ensures forall i, j :: 0 <= i < |r.rows| && 0 <= j < |r.rows[i]| && r.rows[i][j].Text? ==>
      r.rows[i][j] == t.rows[i][j] && r.rows[i][j].text !in MissingTokens && r.rows[i][j].text !in BoolWords
    ensures forall i, j :: 0 <= i < |t.rows| && 0 <= j < |t.rows[i]| && t.rows[i][j].Text? && t.rows[i][j].text in BoolWords ==>
      r.rows[i][j] == Bool(BoolWords[t.rows[i][j].text])
  {
    BoolWordsKeys();
    MapCells(MapCells(CleanColumns(t), NullMissing), BoolWord)
  }

  /**
   * The column of the same name holds a boolean and nothing else but nulls. pandas then
   * infers the column as boolean, and the `.str` accessor refuses it.
   */
  predicate StrRefused(t: Table, name: string) {
    && (exists i, j :: 0 <= i < |t.rows| && 0 <= j < |t.rows[i]| && InColumn(t, j, name) && t.rows[i][j].Bool?)
    && (forall i, j :: 0 <= i < |t.rows| && 0 <= j < |t.rows[i]| && InColumn(t, j, name) ==>
          t.rows[i][j].Bool? || t.rows[i][j] == Null)
  }

  /**
   * `montant = df["montant_total_eur"].str.replace(...)` and the conversion back into the
   * column: a missing or repeated name raises, and so does a column `.str` refuses.
   */
  function ConvertAmount(t: Table): (r: Result<Table, Failure>)
    ensures r.Err? <==> Occurrences(t.header, "montant_total_eur") != 1 || StrRefused(t, "montant_total_eur")
    ensures Occurrences(t.header, "montant_total_eur") == 1 && StrRefused(t, "montant_total_eur") ==>
      r == Err(NotText("montant_total_eur"))
    ensures r.Ok? ==> r.value.header == t.header && |r.value.rows| == |t.rows|
    ensures r.Ok? ==> ColumnHolds(r.value, "montant_total_eur", IsDecOrNull)
  {
    if Occurrences(t.header, "montant_total_eur") == 1 && StrRefused(t, "montant_total_eur") then
      Err(NotText("montant_total_eur"))
    else
      ConvertColumn(t, "montant_total_eur", Amount, Raise)
  }

  /** The five columns converted unconditionally, in the script's order. */
  const ConvertedColumns: seq<string> :=
    ["id_client", "age", "date_inscription", "derniere_connexion", "montant_total_eur"]

  /**
   * The unconditional conversions: each raises when its column is missing or repeated, and the
   * currency conversion also when `.str` refuses the column. They succeed exactly when every
   * converted name picks one column and the currency column is not refused.
   */
  function ConvertTypes(t: Table): (r: Result<Table, Failure>)
    ensures r.Ok? <==> PresentOnce(t.header, ConvertedColumns) && !StrRefused(t, "montant_total_eur")
    ensures r.Ok? ==> r.value.header == t.header && |r.value.rows| == |t.rows|
    ensures r.Err? ==> r.error.name in {"id_client", "age", "date_inscription", "derniere_connexion", "montant_total_eur"}
    ensures r.Err? && r.error.NotText? ==> r.error.name == "montant_total_eur"
  {
    assert ConvertedColumns[0] == "id_client" && ConvertedColumns[1] == "age";
    assert ConvertedColumns[2] == "date_inscription" && ConvertedColumns[3] == "derniere_connexion";
    assert ConvertedColumns[4] == "montant_total_eur";
    var t1 :- ConvertColumn(t, "id_client", ToInteger, Raise);
    RefusedAfterConvert(t, "id_client", ToInteger, Raise);
    var t2 :- ConvertColumn(t1, "age", ToInteger, Raise);
    RefusedAfterConvert(t1, "age", ToInteger, Raise);
    var t3 :- ConvertColumn(t2, "date_inscription", IsoDate, Raise);
    RefusedAfterConvert(t2, "date_inscription", IsoDate, Raise);
    var t4 :- ConvertColumn(t3, "derniere_connexion", IsoDate, Raise);
    RefusedAfterConvert(t3, "derniere_connexion", IsoDate, Raise);
    ConvertAmount(t4)
  }

  /**
   * The whole script on an in-memory table. It succeeds exactly when the conversions do on the
   * prepared table and the renamed header holds `newsletter_ok`.
   */
  function Clean(t: Table): (r: Result<Table, Failure>)
    ensures r.Ok? <==>
      && PresentOnce(RenameHeader(t.header), ConvertedColumns)
      && !StrRefused(Prepare(t), "montant_total_eur")
      && "newsletter_ok" in RenameHeader(t.header)
    ensures r.Ok? ==> r.value.header == RenameHeader(t.header) && |r.value.rows| <= |t.rows|
    ensures r.Ok? ==> forall i :: 0 <= i < |r.value.rows| ==> HasValue(r.value.rows[i])
    ensures r.Err? ==> r.error.name in RequiredColumns
  {
    var converted :- ConvertTypes(Prepare(t));
    var filled :- FillColumn(converted, "newsletter_ok", OrFalse);
    Ok(DropEmptyRows(filled))
  }

  /** The conversions on the frame: on success it holds the converted table. */
  method ConvertTypesOn(df: Frame) returns (status: Outcome<Failure>)
    modifies df
    ensures match ConvertTypes(old(df.View()))
      case Ok(t) => status == Pass && df.View() == t
      case Err(e) => status == Fail(e)
  {
    status := df.Convert("id_client", ToInteger, Raise);
    if status.Fail? { return; }
    status := df.Convert("age", ToInteger, Raise);
    if status.Fail? { return; }
    status := df.Convert("date_inscription", IsoDate, Raise);
    if status.Fail? { return; }
    status := df.Convert("derniere_connexion", IsoDate, Raise);
    if status.Fail? { return; }
    if Occurrences(df.header, "montant_total_eur") == 1 && StrRefused(df.View(), "montant_total_eur") {
      status := Fail(NotText("montant_total_eur"));
      return;
    }
    status := df.Convert("montant_total_eur", Amount, Raise);
  }

  /** The script's steps on the frame, in order; the first that raises ends it. */
  method Run(df: Frame) returns (status: Outcome<Failure>)
    modifies df
    ensures match Clean(old(df.View()))
      case Ok(t) => status == Pass && df.View() == t
      case Err(e) => status == Fail(e)
  {
    df.RenameColumns();
    df.Replace(NullMissing);
    df.Replace(BoolWord);
    status := ConvertTypesOn(df);
    if status.Fail? { return; }
    status := df.Fill("newsletter_ok", OrFalse);
    if status.Fail? { return; }
    df.DropEmptyRows();
  }

  // ---------------------------------------------------------------- properties

  /** "none" and "---" are not in this script's list and survive; "N/A" is nulled. */
  lemma MissingTokensExamples()
    ensures NullMissing(Text("none")) == Text("none")
    ensures NullMissing(Text("---")) == Text("---")
    ensures NullMissing(Text("N/A")) == Null
  {
  }

  /** The boolean words are matched exactly: "Oui" and "TRUE" stay text. */
  lemma BoolWordExamples()
    ensures BoolWord(Text("oui")) == Bool(true) && BoolWord(Text("non")) == Bool(false)
    ensures BoolWord(Text("Oui")) == Text("Oui")
    ensures BoolWord(Text("TRUE")) == Text("TRUE")
  {
  }

  /** A day-first date is not year-month-day and becomes null. */
  lemma DayFirstDateIsNull()
    ensures IsoDate(Text("11/03/2024")) == Null
  {
    DayFirstRejected();
  }

  /** A year-month-day text of a date in range becomes that date. */
  lemma IsoDateReadsBack(d: CalendarDate)
    requires ValidDate(d) && InTimestampRange(d)
    ensures IsoDate(Text(FormatIsoDate(d))) == Date(d)
  {
    ParseIsoDateRoundTrip(d);
  }

  /**
   * A boolean in the currency column survives the `.str` calls only when the column also
   * holds a value that is neither a boolean nor null; `.str` then gives NaN for it.
   */
  lemma BooleanAmountIsNull(t: Table, i: nat, j: nat)
    requires ConvertAmount(t).Ok?
    requires i < |t.rows| && j < |t.rows[i]| && InColumn(t, j, "montant_total_eur") && t.rows[i][j].Bool?
    ensures ConvertAmount(t).value.rows[i][j] == Null
    ensures exists k, m ::
      && 0 <= k < |t.rows| && 0 <= m < |t.rows[k]| && InColumn(t, m, "montant_total_eur")
      && !t.rows[k][m].Bool? && t.rows[k][m] != Null
  {
    assert !StrRefused(t, "montant_total_eur");
  }

  /** A conversion of another column leaves the currency column refused exactly when it was. */
  lemma RefusedAfterConvert(t: Table, name: string, f: Cell -> Cell, absent: Absence)
    requires ConvertColumn(t, name, f, absent).Ok? && name != "montant_total_eur"
    ensures StrRefused(ConvertColumn(t, name, f, absent).value, "montant_total_eur") <==> StrRefused(t, "montant_total_eur")
  {
    var r := ConvertColumn(t, name, f, absent).value;
    if Occurrences(t.header, name) == 1 {
      assert forall i, j :: 0 <= i < |t.rows| && 0 <= j < |t.rows[i]| && InColumn(t, j, "montant_total_eur") ==>
        |r.rows[i]| == |t.rows[i]| && InColumn(r, j, "montant_total_eur") && r.rows[i][j] == t.rows[i][j];
      assert forall i, j :: 0 <= i < |r.rows| && 0 <= j < |r.rows[i]| && InColumn(r, j, "montant_total_eur") ==>
        |r.rows[i]| == |t.rows[i]| && InColumn(t, j, "montant_total_eur") && r.rows[i][j] == t.rows[i][j];
    }
  }

  /**
   * A currency column holding only missing-value tokens and boolean words, with at least one
   * word, becomes a boolean column after the replacements, and the script raises at `.str`
   * whatever the other columns hold.
   */
  lemma BooleanCurrencyRaises(t: Table, i: nat, j: nat)
    requires i < |t.rows| && j < |t.rows[i]| && InColumn(CleanColumns(t), j, "montant_total_eur")
    requires t.rows[i][j].Text? && t.rows[i][j].text in BoolWords
    requires forall k, m :: 0 <= k < |t.rows| && 0 <= m < |t.rows[k]| && InColumn(CleanColumns(t), m, "montant_total_eur") ==>
      t.rows[k][m] == Null || (t.rows[k][m].Text? && (t.rows[k][m].text in MissingTokens || t.rows[k][m].text in BoolWords))
    ensures Clean(t).Err?
  {
    PreparedRefused(t, i, j);
  }

  /** The replacements turn such a currency column into one `.str` refuses. */
  lemma PreparedRefused(t: Table, i: nat, j: nat)
    requires i < |t.rows| && j < |t.rows[i]| && InColumn(CleanColumns(t), j, "montant_total_eur")
    requires t.rows[i][j].Text? && t.rows[i][j].text in BoolWords
    requires forall k, m :: 0 <= k < |t.rows| && 0 <= m < |t.rows[k]| && InColumn(CleanColumns(t), m, "montant_total_eur") ==>
      t.rows[k][m] == Null || (t.rows[k][m].Text? && (t.rows[k][m].text in MissingTokens || t.rows[k][m].text in BoolWords))
    ensures StrRefused(Prepare(t), "montant_total_eur")
  {
    var p := Prepare(t);
    assert InColumn(p, j, "montant_total_eur") && p.rows[i][j].Bool?;
    forall k, m | 0 <= k < |p.rows| && 0 <= m < |p.rows[k]| && InColumn(p, m, "montant_total_eur")
      ensures p.rows[k][m].Bool? || p.rows[k][m] == Null
    {
      assert InColumn(CleanColumns(t), m, "montant_total_eur");
    }
  }

  /** After the conversions, each converted column holds only values of its type, or null. */
  lemma ConvertTypesTyped(t: Table)
    requires ConvertTypes(t).Ok?
    ensures var r := ConvertTypes(t).value;
      && ColumnHolds(r, "id_client", IsIntOrNull)
      && ColumnHolds(r, "age", IsIntOrNull)
      && ColumnHolds(r, "date_inscription", IsDateOrNull)
      && ColumnHolds(r, "derniere_connexion", IsDateOrNull)
      && ColumnHolds(r, "montant_total_eur", IsDecOrNull)
  {
    var t1 := ConvertColumn(t, "id_client", ToInteger, Raise).value;
    ConvertColumnEstablishes(t, "id_client", ToInteger, Raise, IsIntOrNull);
    var t2 := ConvertColumn(t1, "age", ToInteger, Raise).value;
    ConvertColumnEstablishes(t1, "age", ToInteger, Raise, IsIntOrNull);
    ConvertColumnKeeps(t1, "age", ToInteger, Raise, "id_client", IsIntOrNull);
    var t3 := ConvertColumn(t2, "date_inscription", IsoDate, Raise).value;
    ConvertColumnEstablishes(t2, "date_inscription", IsoDate, Raise, IsDateOrNull);
    ConvertColumnKeeps(t2, "date_inscription", IsoDate, Raise, "id_client", IsIntOrNull);
    ConvertColumnKeeps(t2, "date_inscription", IsoDate, Raise, "age", IsIntOrNull);
    var t4 := ConvertColumn(t3, "derniere_connexion", IsoDate, Raise).value;
    ConvertColumnEstablishes(t3, "derniere_connexion", IsoDate, Raise, IsDateOrNull);
    ConvertColumnKeeps(t3, "derniere_connexion", IsoDate, Raise, "id_client", IsIntOrNull);
    ConvertColumnKeeps(t3, "derniere_connexion", IsoDate, Raise, "age", IsIntOrNull);
    ConvertColumnKeeps(t3, "derniere_connexion", IsoDate, Raise, "date_inscription", IsDateOrNull);
    assert ConvertAmount(t4) == ConvertColumn(t4, "montant_total_eur", Amount, Raise);
    ConvertColumnKeeps(t4, "montant_total_eur", Amount, Raise, "id_client", IsIntOrNull);
    ConvertColumnKeeps(t4, "montant_total_eur", Amount, Raise, "age", IsIntOrNull);
    ConvertColumnKeeps(t4, "montant_total_eur", Amount, Raise, "date_inscription", IsDateOrNull);
    ConvertColumnKeeps(t4, "montant_total_eur", Amount, Raise, "derniere_connexion", IsDateOrNull);
  }

  /**
   * The script's result: the converted columns keep their types through the fill and the drop,
   * and `newsletter_ok` holds no null.
   */
  lemma CleanTyped(t: Table)
    requires Clean(t).Ok?
    ensures var r := Clean(t).value;
      && ColumnHolds(r, "id_client", IsIntOrNull)
      && ColumnHolds(r, "age", IsIntOrNull)
      && ColumnHolds(r, "date_inscription", IsDateOrNull)
      && ColumnHolds(r, "derniere_connexion", IsDateOrNull)
      && ColumnHolds(r, "montant_total_eur", IsDecOrNull)
      && ColumnHolds(r, "newsletter_ok", NonNull)
  {
    var converted := ConvertTypes(Prepare(t)).value;
    ConvertTypesTyped(Prepare(t));
    assert Clean(t) == Ok(DropEmptyRows(MapNamed(converted, "newsletter_ok", OrFalse)));
    FillAndDropTyped(converted);
  }

  /** The fill and the drop keep the converted columns' types and leave `newsletter_ok` without null. */
  lemma FillAndDropTyped(converted: Table)
    requires ColumnHolds(converted, "id_client", IsIntOrNull) && ColumnHolds(converted, "age", IsIntOrNull)
    requires ColumnHolds(converted, "date_inscription", IsDateOrNull)
    requires ColumnHolds(converted, "derniere_connexion", IsDateOrNull)
    requires ColumnHolds(converted, "montant_total_eur", IsDecOrNull)
    ensures var r := DropEmptyRows(MapNamed(converted, "newsletter_ok", OrFalse));
      && ColumnHolds(r, "id_client", IsIntOrNull)
      && ColumnHolds(r, "age", IsIntOrNull)
      && ColumnHolds(r, "date_inscription", IsDateOrNull)
      && ColumnHolds(r, "derniere_connexion", IsDateOrNull)
      && ColumnHolds(r, "montant_total_eur", IsDecOrNull)
      && ColumnHolds(r, "newsletter_ok", NonNull)
  {
    var filled := MapNamed(converted, "newsletter_ok", OrFalse);
    MapNamedKeeps(converted, "newsletter_ok", OrFalse, "id_client", IsIntOrNull);
    MapNamedKeeps(converted, "newsletter_ok", OrFalse, "age", IsIntOrNull);
    MapNamedKeeps(converted, "newsletter_ok", OrFalse, "date_inscription", IsDateOrNull);
    MapNamedKeeps(converted, "newsletter_ok", OrFalse, "derniere_connexion", IsDateOrNull);
    MapNamedKeeps(converted, "newsletter_ok", OrFalse, "montant_total_eur", IsDecOrNull);
    assert ColumnHolds(filled, "newsletter_ok", NonNull);
    DropEmptyRowsHolds(filled, "id_client", IsIntOrNull);
    DropEmptyRowsHolds(filled, "age", IsIntOrNull);
    DropEmptyRowsHolds(filled, "date_inscription", IsDateOrNull);
    DropEmptyRowsHolds(filled, "derniere_connexion", IsDateOrNull);
    DropEmptyRowsHolds(filled, "montant_total_eur", IsDecOrNull);
    DropEmptyRowsHolds(filled, "newsletter_ok", NonNull);
  }

  /** The shape of the table after the conversions. */
  lemma ConvertTypesShape(t: Table)
    requires ConvertTypes(t).Ok?
    ensures ConvertTypes(t).value.header == t.header
    ensures |ConvertTypes(t).value.rows| == |t.rows|
    ensures Rectangular(t) ==> Rectangular(ConvertTypes(t).value)
  {
    var t1 := ConvertColumn(t, "id_client", ToInteger, Raise).value;
    var t2 := ConvertColumn(t1, "age", ToInteger, Raise).value;
    var t3 := ConvertColumn(t2, "date_inscription", IsoDate, Raise).value;
    var t4 := ConvertColumn(t3, "derniere_connexion", IsoDate, Raise).value;
    if Rectangular(t) {
      ConvertColumnRectangular(t, "id_client", ToInteger, Raise);
      ConvertColumnRectangular(t1, "age", ToInteger, Raise);
      ConvertColumnRectangular(t2, "date_inscription", IsoDate, Raise);
      ConvertColumnRectangular(t3, "derniere_connexion", IsoDate, Raise);
      ConvertColumnRectangular(t4, "montant_total_eur", Amount, Raise);
    }
  }

  /** The six columns the script uses without checking that they exist. */
  const RequiredColumns: seq<string> :=
    ["id_client", "age", "date_inscription", "derniere_connexion", "montant_total_eur", "newsletter_ok"]

  /** A required column missing from the renamed header makes the script raise. */
  lemma MissingColumnRaises(t: Table, name: string)
    requires name in RequiredColumns && name !in CleanColumns(t).header
    ensures Clean(t).Err?
  {
    var p := Prepare(t);
    assert p.header == CleanColumns(t).header;
    if ConvertTypes(p).Ok? {
      ConvertTypesNeedsColumns(p);
      ConvertTypesShape(p);
      assert name == "newsletter_ok";
      assert FillColumn(ConvertTypes(p).value, name, OrFalse).Err?;
    }
  }

  /** The conversions succeed only when the five converted columns are all present. */
  lemma ConvertTypesNeedsColumns(t: Table)
    requires ConvertTypes(t).Ok?
    ensures "id_client" in t.header && "age" in t.header && "montant_total_eur" in t.header
    ensures "date_inscription" in t.header && "derniere_connexion" in t.header
  {
    var t1 := ConvertColumn(t, "id_client", ToInteger, Raise).value;
    var t2 := ConvertColumn(t1, "age", ToInteger, Raise).value;
    var t3 := ConvertColumn(t2, "date_inscription", IsoDate, Raise).value;
    var t4 := ConvertColumn(t3, "derniere_connexion", IsoDate, Raise).value;
    assert t4.header == t.header;
  }

  /** After the fill `newsletter_ok` holds no null, so the final drop removes no row. */
  lemma NoRowDropped(t: Table)
    requires Rectangular(t) && Clean(t).Ok?
    ensures |Clean(t).value.rows| == |t.rows|
    ensures ColumnHolds(Clean(t).value, "newsletter_ok", NonNull)
  {
    var p := Prepare(t);
    assert Rectangular(p) by {
      MapCellsRectangular(CleanColumns(t), NullMissing);
      MapCellsRectangular(MapCells(CleanColumns(t), NullMissing), BoolWord);
    }
    ConvertTypesShape(p);
    FillKeepsRows(ConvertTypes(p).value);
    CleanTyped(t);
  }

  /** On a rectangular table, the fill leaves no row for the drop to remove. */
  lemma FillKeepsRows(converted: Table)
    requires Rectangular(converted) && "newsletter_ok" in converted.header
    ensures var filled := MapNamed(converted, "newsletter_ok", OrFalse);
      DropEmptyRows(filled) == filled
  {
    var filled := MapNamed(converted, "newsletter_ok", OrFalse);
    MapNamedRectangular(converted, "newsletter_ok", OrFalse);
    assert ColumnHolds(filled, "newsletter_ok", NonNull);
    FullColumnKeepsRows(filled, "newsletter_ok");
  }
}
