/**
 * parse_csvTest.py: the cleaning pipeline written as functions that each take a
 * table and return a cleaned copy: rename the columns, null the pseudo-empty
 * values, convert the typed columns that are present, drop the empty rows.
 */
module ParseCsvTest {
  import opened Wrappers
  import opened PyText
  import opened Numerals
  import opened Calendar
  import opened Tables
  import opened Coercions
  import opened Frames

  /** The values `normalize_strings` treats as missing. */
  const MissingTokens: seq<string> := ["", "None", "NaN", "nan"]

  /** The `actif` token map. */
  const ActifTokens: map<string, bool> :=
    map["oui" := true, "non" := false, "true" := true, "false" := false, "1" := true, "0" := false]

  /** The `newsletter_ok` token map: no digits. */
  const NewsletterTokens: map<string, bool> :=
    map["oui" := true, "non" := false, "true" := true, "false" := false]

  /** The columns `convert_types` converts, in its order. */
  const TypedColumns: seq<string> :=
    ["id_client", "age", "date_inscription", "derniere_connexion", "montant_total_eur", "actif", "newsletter_ok"]

  /** One cell of the `replace` in `normalize_strings` (parse_csvTest.py:33). */
  function NullMissing(c: Cell): Cell {
    NullIfToken(c, MissingTokens)
  }

  /** `normalize_strings`: a cell becomes null exactly when it is one of the missing tokens. */
  function NormalizeStrings(t: Table): (r: Table)
    ensures r.header == t.header && |r.rows| == |t.rows|
    ensures forall i :: 0 <= i < |t.rows| ==> |r.rows[i]| == |t.rows[i]|
    ensures forall i, j :: 0 <= i < |t.rows| && 0 <= j < |t.rows[i]| ==>
      (r.rows[i][j] == Null <==> t.rows[i][j] == Null || (t.rows[i][j].Text? && t.rows[i][j].text in MissingTokens))
    ensures forall i, j :: 0 <= i < |t.rows| && 0 <= j < |t.rows[i]| && r.rows[i][j] != Null ==>
      r.rows[i][j] == t.rows[i][j]
  {
    MapCells(t, NullMissing)
  }

  /** `actif`: `astype(str)`, strip, lower, then `mapping_actif` (parse_csvTest.py:79-87). */
  function Actif(c: Cell): Cell {
    BoolCell(ActifTokens, c)
  }

  /** `newsletter_ok`: `astype(str)`, strip, lower, then the four-key map (parse_csvTest.py:90-98). */
  function Newsletter(c: Cell): Cell {
    BoolCell(NewsletterTokens, c)
  }

  /**
   * `convert_types`: each typed column is converted when present and skipped when
   * absent; a name that picks several columns makes the conversion raise.
   * `dayFirst` stands for `pd.to_datetime(..., dayfirst=True)` on one text.
   */
  function ConvertTypes(t: Table, dayFirst: string -> Option<CalendarDate>): (r: Result<Table, Failure>)
    ensures r.Ok? <==> Unrepeated(t.header, TypedColumns)
    ensures r.Ok? ==> r.value.header == t.header && |r.value.rows| == |t.rows|
    ensures r.Err? ==> r.error.RepeatedColumn? && r.error.name in TypedColumns
  {
    assert TypedColumns[0] == "id_client" && TypedColumns[1] == "age" && TypedColumns[2] == "date_inscription";
    assert TypedColumns[3] == "derniere_connexion" && TypedColumns[4] == "montant_total_eur";
    assert TypedColumns[5] == "actif" && TypedColumns[6] == "newsletter_ok";
    var t1 :- ConvertColumn(t, "id_client", ToInteger, Skip);
    var t2 :- ConvertColumn(t1, "age", ToInteger, Skip);
    var t3 :- ConvertColumn(t2, "date_inscription", DateCells(dayFirst), Skip);
    var t4 :- ConvertColumn(t3, "derniere_connexion", DateCells(dayFirst), Skip);
    var t5 :- ConvertColumn(t4, "montant_total_eur", Amount, Skip);
    var t6 :- ConvertColumn(t5, "actif", Actif, Skip);
    ConvertColumn(t6, "newsletter_ok", Newsletter, Skip)
  }

  /**
   * `convert_types` as written: a copy of the frame whose typed columns are
   * overwritten one after another; the first conversion that raises ends it.
   */
  method ConvertTypesOnCopy(t: Table, dayFirst: string -> Option<CalendarDate>) returns (r: Result<Table, Failure>)
    ensures r == ConvertTypes(t, dayFirst)
  {
    var df := new Frame(t);
    var status := df.Convert("id_client", ToInteger, Skip);
    if status.Fail? { return Err(status.error); }
    status := df.Convert("age", ToInteger, Skip);
    if status.Fail? { return Err(status.error); }
    status := df.Convert("date_inscription", DateCells(dayFirst), Skip);
    if status.Fail? { return Err(status.error); }
    status := df.Convert("derniere_connexion", DateCells(dayFirst), Skip);
    if status.Fail? { return Err(status.error); }
    status := df.Convert("montant_total_eur", Amount, Skip);
    if status.Fail? { return Err(status.error); }
    status := df.Convert("actif", Actif, Skip);
    if status.Fail? { return Err(status.error); }
    status := df.Convert("newsletter_ok", Newsletter, Skip);
    if status.Fail? { return Err(status.error); }
    return Ok(df.View());
  }

  /** `main` without the file input and output: the four steps in order. */
  function Clean(t: Table, dayFirst: string -> Option<CalendarDate>): (r: Result<Table, Failure>)
    ensures r.Ok? <==> Unrepeated(RenameHeader(t.header), TypedColumns)
    ensures r.Ok? ==> r.value.header == RenameHeader(t.header) && |r.value.rows| <= |t.rows|
    ensures r.Ok? ==> forall i :: 0 <= i < |r.value.rows| ==> HasValue(r.value.rows[i])
    ensures r.Err? ==> r.error.RepeatedColumn? && r.error.name in TypedColumns
  {
    var converted :- ConvertTypes(NormalizeStrings(CleanColumns(t)), dayFirst);
    Ok(DropEmptyRows(converted))
  }

  /** After `convert_types`, every typed column holds only values of its type, or null. */
  lemma ConvertTypesTyped(t: Table, dayFirst: string -> Option<CalendarDate>)
    requires ConvertTypes(t, dayFirst).Ok?
    ensures var r := ConvertTypes(t, dayFirst).value;
      && ColumnHolds(r, "id_client", IsIntOrNull)
      && ColumnHolds(r, "age", IsIntOrNull)
      && ColumnHolds(r, "date_inscription", IsDateOrNull)
      && ColumnHolds(r, "derniere_connexion", IsDateOrNull)
      && ColumnHolds(r, "montant_total_eur", IsDecOrNull)
      && ColumnHolds(r, "actif", IsBoolOrNull)
      && ColumnHolds(r, "newsletter_ok", IsBoolOrNull)
  {
    var t1 := ConvertColumn(t, "id_client", ToInteger, Skip).value;
    ConvertColumnEstablishes(t, "id_client", ToInteger, Skip, IsIntOrNull);
    var t2 := ConvertColumn(t1, "age", ToInteger, Skip).value;
    ConvertColumnEstablishes(t1, "age", ToInteger, Skip, IsIntOrNull);
    ConvertColumnKeeps(t1, "age", ToInteger, Skip, "id_client", IsIntOrNull);
    var t3 := ConvertColumn(t2, "date_inscription", DateCells(dayFirst), Skip).value;
    ConvertColumnEstablishes(t2, "date_inscription", DateCells(dayFirst), Skip, IsDateOrNull);
    ConvertColumnKeeps(t2, "date_inscription", DateCells(dayFirst), Skip, "id_client", IsIntOrNull);
    ConvertColumnKeeps(t2, "date_inscription", DateCells(dayFirst), Skip, "age", IsIntOrNull);
    var t4 := ConvertColumn(t3, "derniere_connexion", DateCells(dayFirst), Skip).value;
    ConvertColumnEstablishes(t3, "derniere_connexion", DateCells(dayFirst), Skip, IsDateOrNull);
    ConvertColumnKeeps(t3, "derniere_connexion", DateCells(dayFirst), Skip, "id_client", IsIntOrNull);
    ConvertColumnKeeps(t3, "derniere_connexion", DateCells(dayFirst), Skip, "age", IsIntOrNull);
    ConvertColumnKeeps(t3, "derniere_connexion", DateCells(dayFirst), Skip, "date_inscription", IsDateOrNull);
    var t5 := ConvertColumn(t4, "montant_total_eur", Amount, Skip).value;
    ConvertColumnEstablishes(t4, "montant_total_eur", Amount, Skip, IsDecOrNull);
    ConvertColumnKeeps(t4, "montant_total_eur", Amount, Skip, "id_client", IsIntOrNull);
    ConvertColumnKeeps(t4, "montant_total_eur", Amount, Skip, "age", IsIntOrNull);
    ConvertColumnKeeps(t4, "montant_total_eur", Amount, Skip, "date_inscription", IsDateOrNull);
    ConvertColumnKeeps(t4, "montant_total_eur", Amount, Skip, "derniere_connexion", IsDateOrNull);
    var t6 := ConvertColumn(t5, "actif", Actif, Skip).value;
    ConvertColumnEstablishes(t5, "actif", Actif, Skip, IsBoolOrNull);
    ConvertColumnKeeps(t5, "actif", Actif, Skip, "id_client", IsIntOrNull);
    ConvertColumnKeeps(t5, "actif", Actif, Skip, "age", IsIntOrNull);
    ConvertColumnKeeps(t5, "actif", Actif, Skip, "date_inscription", IsDateOrNull);
    ConvertColumnKeeps(t5, "actif", Actif, Skip, "derniere_connexion", IsDateOrNull);
    ConvertColumnKeeps(t5, "actif", Actif, Skip, "montant_total_eur", IsDecOrNull);
    ConvertColumnEstablishes(t6, "newsletter_ok", Newsletter, Skip, IsBoolOrNull);
    ConvertColumnKeeps(t6, "newsletter_ok", Newsletter, Skip, "id_client", IsIntOrNull);
    ConvertColumnKeeps(t6, "newsletter_ok", Newsletter, Skip, "age", IsIntOrNull);
    ConvertColumnKeeps(t6, "newsletter_ok", Newsletter, Skip, "date_inscription", IsDateOrNull);
    ConvertColumnKeeps(t6, "newsletter_ok", Newsletter, Skip, "derniere_connexion", IsDateOrNull);
    ConvertColumnKeeps(t6, "newsletter_ok", Newsletter, Skip, "montant_total_eur", IsDecOrNull);
    ConvertColumnKeeps(t6, "newsletter_ok", Newsletter, Skip, "actif", IsBoolOrNull);
  }

  /** With none of the typed columns present, `convert_types` returns the table unchanged. */
  lemma ConvertTypesAbsent(t: Table, dayFirst: string -> Option<CalendarDate>)
    requires "id_client" !in t.header && "age" !in t.header
    requires "date_inscription" !in t.header && "derniere_connexion" !in t.header
    requires "montant_total_eur" !in t.header && "actif" !in t.header && "newsletter_ok" !in t.header
    ensures ConvertTypes(t, dayFirst) == Ok(t)
  {
  }

  /**
   * Two column names that the rename makes equal (" Age" and "age", say) make `main`
   * raise when the common name is one that `convert_types` converts.
   */
  lemma RenamedCollisionRaises(t: Table, dayFirst: string -> Option<CalendarDate>, i: nat, j: nat)
    requires i < j < |t.header| && NormalizeName(t.header[i]) == NormalizeName(t.header[j])
    requires NormalizeName(t.header[i]) in TypedColumns
    ensures Clean(t, dayFirst).Err?
  {
    var h := RenameHeader(t.header);
    var name := NormalizeName(t.header[i]);
    OccurrencesTwice(h, name);
    assert h[i] == name && h[j] == name;
    var k :| 0 <= k < |TypedColumns| && TypedColumns[k] == name;
    assert !Unrepeated(h, TypedColumns);
  }

  /** The keys of the `actif` map and the boolean each one gives. */
  lemma ActifKeys()
    ensures ActifTokens.Keys == {"oui", "true", "1", "non", "false", "0"}
    ensures forall k :: k in ActifTokens ==> (ActifTokens[k] <==> k in {"oui", "true", "1"})
  {
  }

  /** `actif`: oui/true/1 give true, non/false/0 give false, every other key gives null. */
  lemma ActifTokensExact(c: Cell)
    ensures Actif(c) == Bool(true) <==> BoolKey(c) in {"oui", "true", "1"}
    ensures Actif(c) == Bool(false) <==> BoolKey(c) in {"non", "false", "0"}
    ensures Actif(c) == Null <==> BoolKey(c) !in {"oui", "true", "1", "non", "false", "0"}
  {
    ActifKeys();
    var key := BoolKey(c);
    assert Actif(c) == if key in ActifTokens then Bool(ActifTokens[key]) else Null;
  }

  /** `newsletter_ok`: only oui/true give true and only non/false give false. */
  lemma NewsletterTokensExact(c: Cell)
    ensures Newsletter(c) == Bool(true) <==> BoolKey(c) in {"oui", "true"}
    ensures Newsletter(c) == Bool(false) <==> BoolKey(c) in {"non", "false"}
    ensures Newsletter(c) == Null <==> BoolKey(c) !in {"oui", "true", "non", "false"}
  {
    NewsletterKeys();
    var key := BoolKey(c);
    assert Newsletter(c) == if key in NewsletterTokens then Bool(NewsletterTokens[key]) else Null;
  }

  /** The keys of the `newsletter_ok` map and the boolean each one gives. */
  lemma NewsletterKeys()
    ensures NewsletterTokens.Keys == {"oui", "true", "non", "false"}
    ensures forall k :: k in NewsletterTokens ==> (NewsletterTokens[k] <==> k in {"oui", "true"})
  {
  }

  /** Keys are compared after stripping and lowering: " Oui " is true. */
  lemma ActifPadded()
    ensures Actif(Text(" Oui ")) == Bool(true)
  {
    assert Strip(" Oui ") == "Oui" by { StripExample(); }
    assert Lower("Oui") == "oui" by { LowerExample(); }
  }

  /** The strip of `ActifPadded`, checked on its own to keep that proof small. */
  lemma StripExample()
    ensures Strip(" Oui ") == "Oui"
  {
  }

  /** The lowering of `ActifPadded`, checked on its own to keep that proof small. */
  lemma LowerExample()
    ensures Lower("Oui") == "oui"
  {
  }

  /** "yes" and null are not `actif` tokens. */
  lemma ActifUnknown()
    ensures Actif(Text("yes")) == Null
    ensures Actif(Null) == Null
  {
    NullKey();
    KeyOfPlain("yes");
    ActifTokensExact(Text("yes"));
    ActifTokensExact(Null);
  }

  /** The digits are not `newsletter_ok` tokens, while "FALSE" is. */
  lemma NewsletterExamples()
    ensures Newsletter(Text("1")) == Null && Newsletter(Text("0")) == Null
    ensures Newsletter(Text("FALSE")) == Bool(false)
  {
    KeyOfPlain("1");
    KeyOfPlain("0");
    FalseKey();
    NewsletterTokensExact(Text("1"));
    NewsletterTokensExact(Text("0"));
    NewsletterTokensExact(Text("FALSE"));
  }

  /** The key of "FALSE", needed by `NewsletterExamples`: lowered to "false". */
  lemma FalseKey()
    ensures BoolKey(Text("FALSE")) == "false"
  {
    StripTrimmed("FALSE");
    assert Lower("FALSE") == "false";
  }

  /** The currency clean-up does not remove '€', so an amount written with it becomes null. */
  lemma AmountEuroIsNull()
    ensures Amount(Text("12 €")) == Null
  {
    AmountRejects("12 €", '€');
  }
}
