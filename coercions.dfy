/**
 * Per-cell conversions shared by the cleaning scripts: `astype(str)`, the
 * coercing numeric and date parses, the currency clean-up without '€', the
 * boolean token lookup and `fillna(False)`.
 */
module Coercions {
  import opened Wrappers
  import opened PyText
  import opened Numerals
  import opened Calendar
  import opened Tables

  /**
   * `astype(str)` of one cell: a null becomes the text "None". Decimal and date cells
   * never reach an `astype(str)` in these scripts (every column is converted once,
   * from text); they give the empty text here, which no token map or parse accepts.
   */
  function AsStr(c: Cell): (s: string)
    ensures c.Text? ==> s == c.text
    ensures c.Null? ==> s == "None"
  {
    match c
    case Null => "None"
    case Text(s) => s
    case Bool(b) => if b then "True" else "False"
    case Int(n) => IntToString(n)
    case _ => ""
  }

  predicate IsIntOrNull(c: Cell) { c.Null? || c.Int? }
  predicate IsDecOrNull(c: Cell) { c.Null? || c.Dec? }
  predicate IsDateOrNull(c: Cell) { c.Null? || c.Date? }
  predicate IsBoolOrNull(c: Cell) { c.Null? || c.Bool? }

  /**
   * `pd.to_numeric(..., errors="coerce").astype("Int64")` on one cell: text that is an
   * integer becomes that integer, other text and null become null. A Python bool
   * counts as 1 or 0.
   */
  function ToInteger(c: Cell): (r: Cell)
    ensures IsIntOrNull(r)
    ensures c.Text? ==> r == match ParseInt(c.text) case Some(n) => Int(n) case None => Null
    ensures c.Null? ==> r == Null
  {
    match c
    case Text(s) => (match ParseInt(s) case Some(n) => Int(n) case None => Null)
    case Bool(b) => Int(if b then 1 else 0)
    case Int(_) => c
    case _ => Null
  }

  /** `pd.to_numeric(s, errors="coerce")` on cleaned currency text: a decimal, or null. */
  function NumberCell(s: string): (r: Cell)
    ensures IsDecOrNull(r)
    ensures r.Dec? <==> ParseDecimal(s).Some?
  {
    match ParseDecimal(s)
    case Some(d) => Dec(d)
    case None => Null
  }

  /** `.str.replace(" ", "")` then `.str.replace(",", ".")`. */
  function CleanAmount(s: string): (r: string)
    ensures ' ' !in r && ',' !in r
  {
    ReplaceChar(RemoveChar(s, ' '), ',', '.')
  }

  /**
   * One cell of the currency column without '€' handling. In a column `.str` accepts (one
   * holding some text), `.str` gives NaN for a cell that is not text, so only text cells
   * can become numbers. A column of booleans and nulls alone is refused before this is
   * reached (`ParseCsv.ConvertAmount`).
   */
  function Amount(c: Cell): (r: Cell)
    ensures IsDecOrNull(r)
    ensures !c.Text? ==> r == Null
  {
    match c
    case Text(s) => NumberCell(CleanAmount(s))
    case _ => Null
  }

  /**
   * Any character the clean-up neither removes nor rewrites, and that no number holds,
   * makes the amount null: in particular a '€' sign.
   */
  lemma AmountRejects(s: string, c: char)
    requires c in s && c != ' ' && c != ','
    requires !IsDigit(c) && c != '-' && c != '+' && c != '.'
    ensures Amount(Text(s)) == Null
  {
    var removed := RemoveChar(s, ' ');
    RemoveCharKeeps(s, ' ', c);
    var i :| 0 <= i < |removed| && removed[i] == c;
    assert CleanAmount(s)[i] == c;
    if ParseDecimal(CleanAmount(s)).Some? {
      ParseDecimalChars(CleanAmount(s), c);
    }
  }

  /** The space of "a b,f" is removed and nothing else. */
  lemma RemoveGroupSpace(a: string, b: string, f: string)
    requires AllDigits(a) && AllDigits(b) && AllDigits(f)
    ensures RemoveChar(a + (" " + (b + ("," + f))), ' ') == a + (b + ("," + f))
  {
    assert ' ' !in a && ' ' !in b && ' ' !in f;
    var x3 := "," + f;
    RemoveCharConcat(",", f, ' ');
    assert RemoveChar(",", ' ') == ",";
    var x2 := b + x3;
    RemoveCharConcat(b, x3, ' ');
    var x1 := " " + x2;
    RemoveCharConcat(" ", x2, ' ');
    assert RemoveChar(" ", ' ') == [];
    assert RemoveChar(x1, ' ') == x2;
    RemoveCharConcat(a, x1, ' ');
  }

  /** The decimal comma between two digit runs becomes a point. */
  lemma ReplaceDecimalComma(w: string, f: string)
    requires AllDigits(w) && AllDigits(f)
    ensures ReplaceChar(w + "," + f, ',', '.') == w + "." + f
  {
    var r := ReplaceChar(w + "," + f, ',', '.');
    forall i | 0 <= i < |r| ensures r[i] == (w + "." + f)[i] {
      if i < |w| {
        assert (w + "," + f)[i] == w[i];
      } else if i > |w| {
        assert (w + "," + f)[i] == f[i - |w| - 1];
      }
    }
  }

  /** The clean-up turns a French grouped amount "a b,f" into "ab.f". */
  lemma CleanAmountGrouped(a: string, b: string, f: string)
    requires AllDigits(a) && AllDigits(b) && AllDigits(f)
    ensures AllDigits(a + b)
    ensures CleanAmount(a + " " + b + "," + f) == (a + b) + "." + f
  {
    RemoveGroupSpace(a, b, f);
    assert a + " " + b + "," + f == a + (" " + (b + ("," + f)));
    var w := a + b;
    assert a + (b + ("," + f)) == w + "," + f;
    ValueConcat(a, b);
    ReplaceDecimalComma(w, f);
  }

  /** A French grouped amount "a b,f" reads as the decimal with digits a, b, f and scale |f|. */
  lemma AmountGrouped(a: string, b: string, f: string)
    requires a != [] && AllDigits(a) && AllDigits(b) && AllDigits(f)
    ensures AllDigits(a + b + f)
    ensures Amount(Text(a + " " + b + "," + f)) == Dec(Decimal(Value(a + b + f), |f|))
  {
    CleanAmountGrouped(a, b, f);
    var w := a + b;
    assert w + "." + f == SignText(false) + (w + "." + f);
    ParseDecimalPoint(false, w, f);
    assert ParseDecimal(CleanAmount(a + " " + b + "," + f)) == Some(Decimal(Value(w + f), |f|));
  }

  /** `pd.to_datetime(..., errors="coerce")` on one cell, with the given text reader. */
  function DateCell(parse: string -> Option<CalendarDate>, c: Cell): (r: Cell)
    ensures IsDateOrNull(r)
    ensures !c.Text? ==> r == Null
  {
    match c
    case Text(s) => (match parse(s) case Some(d) => Date(d) case None => Null)
    case _ => Null
  }

  /** `DateCell` with its reader fixed, as a cell conversion. */
  function DateCells(parse: string -> Option<CalendarDate>): Cell -> Cell {
    c => DateCell(parse, c)
  }

  /** The lookup key of a boolean column: `astype(str).str.strip().str.lower()`. */
  function BoolKey(c: Cell): (r: string)
    ensures |r| <= |AsStr(c)|
    ensures r == [] || (!IsSpace(r[0]) && !IsSpace(r[|r| - 1]))
    ensures forall i :: 0 <= i < |r| ==> !('A' <= r[i] <= 'Z')
  {
    var s := Strip(AsStr(c));
    LowerTrimmed(s);
    Lower(s)
  }

  /** A text without surrounding whitespace or capitals is its own key. */
  lemma KeyOfPlain(s: string)
    requires s == [] || (!IsSpace(s[0]) && !IsSpace(s[|s| - 1]))
    requires forall i :: 0 <= i < |s| ==> !('A' <= s[i] <= 'Z')
    ensures BoolKey(Text(s)) == s
  {
    StripTrimmed(s);
    assert Lower(s) == s;
  }

  /** `.map(tokens).astype("boolean")`: a mapped key gives its boolean, any other value null. */
  function BoolCell(tokens: map<string, bool>, c: Cell): (r: Cell)
    ensures IsBoolOrNull(r)
    ensures r.Bool? <==> BoolKey(c) in tokens
    ensures r.Bool? ==> r.b == tokens[BoolKey(c)]
  {
    var key := BoolKey(c);
    if key in tokens then Bool(tokens[key]) else Null
  }

  /** `fillna(False)` on one cell: nulls become false, everything else stays. */
  function OrFalse(c: Cell): (r: Cell)
    ensures r != Null
    ensures c != Null ==> r == c
    ensures c == Null ==> r == Bool(false)
  {
    if c == Null then Bool(false) else c
  }

  /** A null read by a boolean column is looked up as "none". */
  lemma NullKey()
    ensures BoolKey(Null) == "none"
  {
    assert Strip("None") == "None" by { StripTrimmed("None"); }
  }
}
