/**
 * parsepro_csv.py: a script that renames the header of one frame, nulls ten
 * missing-value tokens, converts the typed columns that are present (the two date
 * columns in a loop), maps both boolean columns through one shared token map,
 * defaults `newsletter_ok` to false, and drops the all-null rows.
 */
module ParseproCsv {
  import opened Wrappers
  import opened Seqs
  import opened PyText
  import opened Numerals
  import opened Calendar
  import opened Tables
  import opened Coercions
  import opened Frames

  /** The values replaced by `None`: whole-cell and case-sensitive. */
  const MissingTokens: seq<string> := ["", "None", "none", "Nan", "nan", "N/A", "n/a", "NA", "na", "---"]

  /** `bool_mapping`, shared by `actif` and `newsletter_ok`. */
  const BoolMapping: map<string, bool> := map[
    "oui" := true, "yes" := true, "true" := true, "1" := true,
    "non" := false, "no" := false, "false" := false, "0" := false]

  /** The date columns, in the order of the loop that converts them. */
  const DateColumns: seq<string> := ["date_inscription", "derniere_connexion"]

  /** The columns the script converts, in its order. */
  const TypedColumns: seq<string> :=
    ["id_client", "age", "date_inscription", "derniere_connexion", "montant_total_eur", "actif", "newsletter_ok"]

  const NoBreakSpace: char := '\U{A0}'

  /** One cell of the `replace` of the missing tokens (parsepro_csv.py:30). */
  function NullMissing(c: Cell): Cell {
    NullIfToken(c, MissingTokens)
  }

  /** `df.replace({token: None for token in missing_tokens})`. */
  function ReplaceMissing(t: Table): (r: Table)
    ensures r.header == t.header && |r.rows| == |t.rows|
    ensures forall i :: 0 <= i < |t.rows| ==> |r.rows[i]| == |t.rows[i]|
    ensures forall i, j :: 0 <= i < |t.rows| && 0 <= j < |t.rows[i]| ==>
      (r.rows[i][j] == Null <==> t.rows[i][j] == Null || (t.rows[i][j].Text? && t.rows[i][j].text in MissingTokens))
    ensures forall i, j :: 0 <= i < |t.rows| && 0 <= j < |t.rows[i]| && r.rows[i][j] != Null ==>
      r.rows[i][j] == t.rows[i][j]
    ensures forall i, j :: 0 <= i < |r.rows| && 0 <= j < |r.rows[i]| && r.rows[i][j].Text? ==>
      r.rows[i][j].text !in MissingTokens
  {
    MapCells(t, NullMissing)
  }

  /**
   * The currency clean-up: strip, then remove '€', the no-break space and ' ', then
   * turn ',' into '.'. None of the four characters is left.
   */
  function CleanAmountPro(s: string): (r: string)
    ensures '€' !in r && NoBreakSpace !in r && ' ' !in r && ',' !in r
  {
    var noEuro := RemoveChar(Strip(s), '€');
    var noNbsp := RemoveChar(noEuro, NoBreakSpace);
    var noSpace := RemoveChar(noNbsp, ' ');
    RemoveCharKeeps(noEuro, NoBreakSpace, '€');
    RemoveCharKeeps(noNbsp, ' ', '€');
    RemoveCharKeeps(noNbsp, ' ', NoBreakSpace);
    ReplaceChar(noSpace, ',', '.')
  }

  /** `pd.to_numeric(montant, errors="coerce")` after `astype(str)` and the clean-up. */
  function AmountPro(c: Cell): (r: Cell)
    ensures IsDecOrNull(r)
    ensures r.Dec? <==> ParseDecimal(CleanAmountPro(AsStr(c))).Some?
  {
    NumberCell(CleanAmountPro(AsStr(c)))
  }

  /** `actif`: mapped through `bool_mapping`, unmapped keys are null (parsepro_csv.py:77-80). */
  function Actif(c: Cell): Cell {
    BoolCell(BoolMapping, c)
  }

  /** `newsletter_ok`: mapped through `bool_mapping`, then `fillna(False)`. */
  function Newsletter(c: Cell): (r: Cell)
    ensures r != Null
    ensures r == Bool(true) <==> BoolKey(c) in BoolMapping && BoolMapping[BoolKey(c)]
  {
    OrFalse(BoolCell(BoolMapping, c))
  }

  /** The conversions of `names`, in order, each skipped when its column is absent. */
  function ConvertEach(t: Table, names: seq<string>, f: Cell -> Cell): (r: Result<Table, Failure>)
    ensures r.Ok? <==> Unrepeated(t.header, names)
    ensures r.Ok? ==> r.value.header == t.header && |r.value.rows| == |t.rows|
    ensures r.Err? ==> r.error.RepeatedColumn? && r.error.name in names
  {
    if names == [] then Ok(t)
    else
      var before :- ConvertEach(t, names[..|names| - 1], f);
      ConvertColumn(before, names[|names| - 1], f, Skip)
  }

  /** Once a conversion in the loop raises, the later names do not matter. */
  lemma {:induction false} ConvertEachStops(t: Table, names: seq<string>, f: Cell -> Cell, k: nat)
    requires k <= |names| && ConvertEach(t, names[..k], f).Err?
    ensures ConvertEach(t, names, f) == ConvertEach(t, names[..k], f)
    decreases |names| - k
  {
    if k < |names| {
      var longer := names[..k + 1];
      assert longer[..k] == names[..k];
      ConvertEachStops(t, names, f, k + 1);
    } else {
      assert names[..k] == names;
    }
  }

  /** Steps 4 and 5 of the script: the typed conversions, each skipped when its column is absent. */
  function ConvertTypes(t: Table, dayFirst: string -> Option<CalendarDate>): (r: Result<Table, Failure>)
    ensures r.Ok? <==> Unrepeated(t.header, TypedColumns)
    ensures r.Ok? ==> r.value.header == t.header && |r.value.rows| == |t.rows|
    ensures r.Err? ==> r.error.RepeatedColumn? && r.error.name in TypedColumns
  {
    assert TypedColumns[0] == "id_client" && TypedColumns[1] == "age" && TypedColumns[2] == "date_inscription";
    assert TypedColumns[3] == "derniere_connexion" && TypedColumns[4] == "montant_total_eur";
    assert TypedColumns[5] == "actif" && TypedColumns[6] == "newsletter_ok";
    assert DateColumns == TypedColumns[2..4];
    var t1 :- ConvertColumn(t, "id_client", ToInteger, Skip);
    var t2 :- ConvertColumn(t1, "age", ToInteger, Skip);
    var t3 :- ConvertEach(t2, DateColumns, DateCells(dayFirst));
    var t4 :- ConvertColumn(t3, "montant_total_eur", AmountPro, Skip);
    var t5 :- ConvertColumn(t4, "actif", Actif, Skip);
    ConvertColumn(t5, "newsletter_ok", Newsletter, Skip)
  }

  /** The whole script on an in-memory table; `dayFirst` stands for `to_datetime(..., dayfirst=True)`. */
  function Clean(t: Table, dayFirst: string -> Option<CalendarDate>): (r: Result<Table, Failure>)
    ensures r.Ok? <==> Unrepeated(RenameHeader(t.header), TypedColumns)
    ensures r.Ok? ==> r.value.header == RenameHeader(t.header) && |r.value.rows| <= |t.rows|
    ensures r.Ok? ==> forall i :: 0 <= i < |r.value.rows| ==> HasValue(r.value.rows[i])
    ensures r.Err? ==> r.error.RepeatedColumn? && r.error.name in TypedColumns
  {
    var converted :- ConvertTypes(ReplaceMissing(CleanColumns(t)), dayFirst);
    Ok(DropEmptyRows(converted))
  }

  /** `for col in ["date_inscription", "derniere_connexion"]`: each present date column is converted. */
  method ConvertDates(df: Frame, dayFirst: string -> Option<CalendarDate>) returns (status: Outcome<Failure>)
    modifies df
    ensures match ConvertEach(old(df.View()), DateColumns, DateCells(dayFirst))
      case Ok(t) => status == Pass && df.View() == t
      case Err(e) => status == Fail(e)
  {
    ghost var t := df.View();
    status := Pass;
    for k := 0 to |DateColumns|
      invariant status == Pass
      invariant ConvertEach(t, DateColumns[..k], DateCells(dayFirst)) == Ok(df.View())
    {
      assert DateColumns[..k + 1][..k] == DateColumns[..k];
      status := df.Convert(DateColumns[k], DateCells(dayFirst), Skip);
      if status.Fail? {
        ConvertEachStops(t, DateColumns, DateCells(dayFirst), k + 1);
        return;
      }
    }
    assert DateColumns[..|DateColumns|] == DateColumns;
  }

  /** Steps 4 and 5 on the frame: on success it holds the converted table. */
  method ConvertTypesOn(df: Frame, dayFirst: string -> Option<CalendarDate>) returns (status: Outcome<Failure>)
    modifies df
    ensures match ConvertTypes(old(df.View()), dayFirst)
      case Ok(t) => status == Pass && df.View() == t
      case Err(e) => status == Fail(e)
  {
    status := df.Convert("id_client", ToInteger, Skip);
    if status.Fail? { return; }
    status := df.Convert("age", ToInteger, Skip);
    if status.Fail? { return; }
    status := ConvertDates(df, dayFirst);
    if status.Fail? { return; }
    status := df.Convert("montant_total_eur", AmountPro, Skip);
    if status.Fail? { return; }
    status := df.Convert("actif", Actif, Skip);
    if status.Fail? { return; }
    status := df.Convert("newsletter_ok", Newsletter, Skip);
  }

  /**
   * The script's steps on the frame, in order. A conversion that raises ends the
   * script with that failure.
   */
  method Run(df: Frame, dayFirst: string -> Option<CalendarDate>) returns (status: Outcome<Failure>)
    modifies df
    ensures match Clean(old(df.View()), dayFirst)
      case Ok(t) => status == Pass && df.View() == t
      case Err(e) => status == Fail(e)
  {
    df.RenameColumns();
    df.Replace(NullMissing);
    status := ConvertTypesOn(df, dayFirst);
    if status.Fail? { return; }
    df.DropEmptyRows();
  }

  // ---------------------------------------------------------------- properties

  /** The match is whole-cell and case-sensitive: "NaN" and "NONE" stay text, "---" is nulled. */
  lemma MissingTokensCaseSensitive()
    ensures NullMissing(Text("NaN")) == Text("NaN")
    ensures NullMissing(Text("NONE")) == Text("NONE")
    ensures NullMissing(Text("---")) == Null
  {
  }

  /** The keys of `bool_mapping` and the boolean each one gives. */
  lemma BoolMappingKeys()
    ensures BoolMapping.Keys == {"oui", "yes", "true", "1", "non", "no", "false", "0"}
    ensures forall k :: k in BoolMapping ==> (BoolMapping[k] <==> k in {"oui", "yes", "true", "1"})
  {
  }

  /** `actif`: oui/yes/true/1 give true, non/no/false/0 give false, every other key null. */
  lemma ActifTokensExact(c: Cell)
    ensures Actif(c) == Bool(true) <==> BoolKey(c) in {"oui", "yes", "true", "1"}
    ensures Actif(c) == Bool(false) <==> BoolKey(c) in {"non", "no", "false", "0"}
    ensures Actif(c) == Null <==> BoolKey(c) !in {"oui", "yes", "true", "1", "non", "no", "false", "0"}
  {
    BoolMappingKeys();
  }

  /** `newsletter_ok`: oui/yes/true/1 give true and every other value, null included, false. */
  lemma NewsletterTokensExact(c: Cell)
    ensures Newsletter(c) == Bool(true) <==> BoolKey(c) in {"oui", "yes", "true", "1"}
    ensures Newsletter(c) == Bool(false) <==> BoolKey(c) !in {"oui", "yes", "true", "1"}
  {
    BoolMappingKeys();
  }

  /** A character the clean-up does not remove or replace survives it. */
  lemma CleanAmountProKeeps(s: string, x: char)
    requires x in Strip(s)
    requires x != '€' && x != NoBreakSpace && x != ' ' && x != ','
    ensures x in CleanAmountPro(s)
  {
    var noEuro := RemoveChar(Strip(s), '€');
    var noNbsp := RemoveChar(noEuro, NoBreakSpace);
    var noSpace := RemoveChar(noNbsp, ' ');
    RemoveCharKeeps(Strip(s), '€', x);
    RemoveCharKeeps(noEuro, NoBreakSpace, x);
    RemoveCharKeeps(noNbsp, ' ', x);
    var i :| 0 <= i < |noSpace| && noSpace[i] == x;
    assert CleanAmountPro(s)[i] == x;
  }

  /** Any character the clean-up leaves and no number holds makes the amount null. */
  lemma AmountProRejects(c: Cell, x: char)
    requires x in Strip(AsStr(c))
    requires x != '€' && x != NoBreakSpace && x != ' ' && x != ','
    requires !IsDigit(x) && x != '-' && x != '+' && x != '.'
    ensures AmountPro(c) == Null
  {
    var cleaned := CleanAmountPro(AsStr(c));
    CleanAmountProKeeps(AsStr(c), x);
    if ParseDecimal(cleaned).Some? {
      ParseDecimalChars(cleaned, x);
    }
  }

  /** A null cell reaches the clean-up as the text "None" and becomes null again. */
  lemma AmountProNull()
    ensures AmountPro(Null) == Null
  {
    StripTrimmed("None");
    assert 'N' in Strip(AsStr(Null));
    AmountProRejects(Null, 'N');
  }

  /** Removing '€' from "a b,f €" leaves "a b,f ". */
  lemma RemoveEuro(a: string, b: string, f: string)
    requires AllDigits(a) && AllDigits(b) && AllDigits(f)
    ensures RemoveChar(a + (" " + (b + ("," + (f + " €")))), '€') == a + (" " + (b + ("," + (f + " "))))
  {
    assert '€' !in a && '€' !in b && '€' !in f;
    var x5 := f + " €";
    RemoveCharConcat(f, " €", '€');
    assert RemoveChar(" €", '€') == " ";
    var x4 := "," + x5;
    RemoveCharConcat(",", x5, '€');
    assert RemoveChar(",", '€') == ",";
    var x3 := b + x4;
    RemoveCharConcat(b, x4, '€');
    var x2 := " " + x3;
    RemoveCharConcat(" ", x3, '€');
    assert RemoveChar(" ", '€') == " ";
    RemoveCharConcat(a, x2, '€');
  }

  /** Removing ' ' from "a b,f " leaves "ab,f". */
  lemma RemoveSpaces(a: string, b: string, f: string)
    requires AllDigits(a) && AllDigits(b) && AllDigits(f)
    ensures RemoveChar(a + (" " + (b + ("," + (f + " ")))), ' ') == a + (b + ("," + f))
  {
    var x5 := f + " ";
    assert RemoveChar(x5, ' ') == f by {
      assert ' ' !in f;
      RemoveCharConcat(f, " ", ' ');
      assert RemoveChar(" ", ' ') == [];
      assert f + [] == f;
    }
    var x4 := "," + x5;
    assert RemoveChar(x4, ' ') == "," + f by {
      RemoveCharConcat(",", x5, ' ');
      assert RemoveChar(",", ' ') == ",";
    }
    var x3 := b + x4;
    assert RemoveChar(x3, ' ') == b + ("," + f) by {
      assert ' ' !in b;
      RemoveCharConcat(b, x4, ' ');
    }
    var x2 := " " + x3;
    assert RemoveChar(x2, ' ') == b + ("," + f) by {
      RemoveCharConcat(" ", x3, ' ');
      assert RemoveChar(" ", ' ') == [];
    }
    assert ' ' !in a;
    RemoveCharConcat(a, x2, ' ');
  }

  /** "a b,f €" has no surrounding whitespace. */
  lemma StripGrouped(a: string, b: string, f: string)
    requires a != [] && AllDigits(a)
    ensures Strip(a + (" " + (b + ("," + (f + " €"))))) == a + (" " + (b + ("," + (f + " €"))))
  {
    var s := a + (" " + (b + ("," + (f + " €"))));
    assert s[0] == a[0] && s[|s| - 1] == '€';
    StripTrimmed(s);
  }

  /** "a b,f " holds no no-break space. */
  lemma NoNbspGrouped(a: string, b: string, f: string)
    requires AllDigits(a) && AllDigits(b) && AllDigits(f)
    ensures RemoveChar(a + (" " + (b + ("," + (f + " ")))), NoBreakSpace) == a + (" " + (b + ("," + (f + " "))))
  {
    assert NoBreakSpace !in a && NoBreakSpace !in b && NoBreakSpace !in f;
  }

  /** The three removals turn "a b,f €" into "ab,f". */
  lemma RemovalsGrouped(a: string, b: string, f: string)
    requires a != [] && AllDigits(a) && AllDigits(b) && AllDigits(f)
    ensures RemoveChar(RemoveChar(RemoveChar(Strip(a + " " + b + "," + f + " €"), '€'), NoBreakSpace), ' ')
         == (a + b) + "," + f
  {
    var s := a + (" " + (b + ("," + (f + " €"))));
    var u := a + (" " + (b + ("," + (f + " "))));
    assert a + " " + b + "," + f + " €" == s;
    calc {
      RemoveChar(RemoveChar(RemoveChar(Strip(s), '€'), NoBreakSpace), ' ');
    == { StripGrouped(a, b, f); }
      RemoveChar(RemoveChar(RemoveChar(s, '€'), NoBreakSpace), ' ');
    == { RemoveEuro(a, b, f); }
      RemoveChar(RemoveChar(u, NoBreakSpace), ' ');
    == { NoNbspGrouped(a, b, f); }
      RemoveChar(u, ' ');
    == { RemoveSpaces(a, b, f); }
      a + (b + ("," + f));
    ==
      (a + b) + "," + f;
    }
  }

  /** The clean-up of a French grouped amount with a trailing euro sign: "a b,f €" becomes "ab.f". */
  lemma CleanAmountProGrouped(a: string, b: string, f: string)
    requires a != [] && AllDigits(a) && AllDigits(b) && AllDigits(f)
    ensures CleanAmountPro(a + " " + b + "," + f + " €") == a + b + "." + f
  {
    CleanAmountProSteps(a + " " + b + "," + f + " €");
    RemovalsGrouped(a, b, f);
    ReplaceDecimalComma(a + b, f);
  }

  /** The clean-up is the four replacements, in order, after the strip. */
  lemma CleanAmountProSteps(s: string)
    ensures CleanAmountPro(s) == ReplaceChar(RemoveChar(RemoveChar(RemoveChar(Strip(s), '€'), NoBreakSpace), ' '), ',', '.')
  {
  }

  /** "a b,f €" is the exact decimal with digits a, b, f and scale |f|. */
  lemma AmountProGrouped(a: string, b: string, f: string)
    requires a != [] && AllDigits(a) && AllDigits(b) && AllDigits(f)
    ensures AllDigits(a + b + f)
    ensures AmountPro(Text(a + " " + b + "," + f + " €")) == Dec(Decimal(Value(a + b + f), |f|))
  {
    CleanAmountProGrouped(a, b, f);
    ValueConcat(a, b);
    assert a + b + "." + f == SignText(false) + ((a + b) + "." + f);
    ParseDecimalPoint(false, a + b, f);
  }

  /** After the conversions the header is unchanged, and a rectangular table stays rectangular. */
  lemma ConvertEachShape(t: Table, names: seq<string>, f: Cell -> Cell)
    requires ConvertEach(t, names, f).Ok?
    ensures ConvertEach(t, names, f).value.header == t.header
    ensures |ConvertEach(t, names, f).value.rows| == |t.rows|
    ensures Rectangular(t) ==> Rectangular(ConvertEach(t, names, f).value)
  {
    if names != [] {
      var before := ConvertEach(t, names[..|names| - 1], f).value;
      ConvertEachShape(t, names[..|names| - 1], f);
      if Rectangular(t) {
        ConvertColumnRectangular(before, names[|names| - 1], f, Skip);
      }
    }
  }

  lemma ConvertTypesShape(t: Table, dayFirst: string -> Option<CalendarDate>)
    requires ConvertTypes(t, dayFirst).Ok?
    ensures ConvertTypes(t, dayFirst).value.header == t.header
    ensures |ConvertTypes(t, dayFirst).value.rows| == |t.rows|
    ensures Rectangular(t) ==> Rectangular(ConvertTypes(t, dayFirst).value)
  {
    var t1 := ConvertColumn(t, "id_client", ToInteger, Skip).value;
    var t2 := ConvertColumn(t1, "age", ToInteger, Skip).value;
    ConvertEachShape(t2, DateColumns, DateCells(dayFirst));
    var t3 := ConvertEach(t2, DateColumns, DateCells(dayFirst)).value;
    var t4 := ConvertColumn(t3, "montant_total_eur", AmountPro, Skip).value;
    var t5 := ConvertColumn(t4, "actif", Actif, Skip).value;
    if Rectangular(t) {
      ConvertColumnRectangular(t, "id_client", ToInteger, Skip);
      ConvertColumnRectangular(t1, "age", ToInteger, Skip);
      ConvertColumnRectangular(t3, "montant_total_eur", AmountPro, Skip);
      ConvertColumnRectangular(t4, "actif", Actif, Skip);
      ConvertColumnRectangular(t5, "newsletter_ok", Newsletter, Skip);
    }
  }

  /** After the conversions, `newsletter_ok` holds no null. */
  lemma NewsletterHasNoNull(t: Table, dayFirst: string -> Option<CalendarDate>)
    requires ConvertTypes(t, dayFirst).Ok?
    ensures ColumnHolds(ConvertTypes(t, dayFirst).value, "newsletter_ok", NonNull)
  {
    var t1 := ConvertColumn(t, "id_client", ToInteger, Skip).value;
    var t2 := ConvertColumn(t1, "age", ToInteger, Skip).value;
    var t3 := ConvertEach(t2, DateColumns, DateCells(dayFirst)).value;
    var t4 := ConvertColumn(t3, "montant_total_eur", AmountPro, Skip).value;
    var t5 := ConvertColumn(t4, "actif", Actif, Skip).value;
    ConvertColumnEstablishes(t5, "newsletter_ok", Newsletter, Skip, NonNull);
  }

  /** With `newsletter_ok` in the renamed header, the final drop removes no row. */
  lemma NoRowDropped(t: Table, dayFirst: string -> Option<CalendarDate>)
    requires Rectangular(t) && "newsletter_ok" in CleanColumns(t).header
    requires Clean(t, dayFirst).Ok?
    ensures Clean(t, dayFirst).value == ConvertTypes(ReplaceMissing(CleanColumns(t)), dayFirst).value
    ensures |Clean(t, dayFirst).value.rows| == |t.rows|
  {
    var prepared := ReplaceMissing(CleanColumns(t));
    assert Rectangular(prepared) by {
      MapCellsRectangular(CleanColumns(t), NullMissing);
    }
    var converted := ConvertTypes(prepared, dayFirst).value;
    ConvertTypesShape(prepared, dayFirst);
    assert "newsletter_ok" in converted.header;
    NewsletterHasNoNull(prepared, dayFirst);
    FullColumnKeepsRows(converted, "newsletter_ok");
    assert Clean(t, dayFirst) == Ok(DropEmptyRows(converted));
  }

  /** With none of the typed columns present, only the rename, the replace and the drop act. */
  lemma ConversionsAbsent(t: Table, dayFirst: string -> Option<CalendarDate>)
    requires forall name :: name in ["id_client", "age", "montant_total_eur", "actif", "newsletter_ok"] + DateColumns ==>
      name !in CleanColumns(t).header
    ensures Clean(t, dayFirst) == Ok(DropEmptyRows(ReplaceMissing(CleanColumns(t))))
  {
    var prepared := ReplaceMissing(CleanColumns(t));
    assert prepared.header == CleanColumns(t).header;
    ConvertTypesAbsent(prepared, dayFirst);
  }

  /** A table with none of the typed columns passes the conversions unchanged. */
  lemma ConvertTypesAbsent(t: Table, dayFirst: string -> Option<CalendarDate>)
    requires "id_client" !in t.header && "age" !in t.header && "montant_total_eur" !in t.header
    requires "actif" !in t.header && "newsletter_ok" !in t.header
    requires "date_inscription" !in t.header && "derniere_connexion" !in t.header
    ensures ConvertTypes(t, dayFirst) == Ok(t)
  {
    assert ConvertColumn(t, "id_client", ToInteger, Skip) == Ok(t);
    assert ConvertColumn(t, "age", ToInteger, Skip) == Ok(t);
    assert ConvertEach(t, DateColumns[..1], DateCells(dayFirst)) == Ok(t) by {
      assert DateColumns[..1][..0] == [];
    }
    assert ConvertEach(t, DateColumns, DateCells(dayFirst)) == Ok(t) by {
      assert DateColumns[..|DateColumns| - 1] == DateColumns[..1];
    }
    assert ConvertColumn(t, "montant_total_eur", AmountPro, Skip) == Ok(t);
    assert ConvertColumn(t, "actif", Actif, Skip) == Ok(t);
  }
}
