/**
 * Decimal numerals: the digit-string parsers that stand in for `pd.to_numeric`
 * (integers and exact decimals, no floating point) and their renderers.
 */
module Numerals {
  import opened Wrappers

  predicate IsDigit(c: char) { '0' <= c <= '9' }

  predicate AllDigits(s: string) {
    forall i :: 0 <= i < |s| ==> IsDigit(s[i])
  }

  function DigitChar(d: nat): (c: char)
    requires d < 10
    ensures IsDigit(c)
  {
    ('0' as int + d) as char
  }

  function Pow10(n: nat): (p: nat)
    ensures p >= 1
  {
    if n == 0 then 1 else 10 * Pow10(n - 1)
  }

  /** The number a digit string denotes (leading zeros allowed). */
  function Value(s: string): nat
    requires AllDigits(s)
  {
    if s == [] then 0 else 10 * Value(s[..|s| - 1]) + (s[|s| - 1] as int - '0' as int)
  }

  /** Reading the digits of `a + b` is shifting `a` left by `|b|` places and adding `b`. */
  lemma {:induction false} ValueConcat(a: string, b: string)
    requires AllDigits(a) && AllDigits(b)
    ensures AllDigits(a + b)
    ensures Value(a + b) == Value(a) * Pow10(|b|) + Value(b)
  {
    if b == [] {
      assert a + b == a;
    } else {
      var b' := b[..|b| - 1];
      assert (a + b)[..|a + b| - 1] == a + b';
      ValueConcat(a, b');
      var d := b[|b| - 1] as int - '0' as int;
      assert (a + b)[|a + b| - 1] == b[|b| - 1];
      assert Value(a + b) == 10 * Value(a + b') + d;
      assert Value(b) == 10 * Value(b') + d;
      ShiftDigit(Value(a), Pow10(|b'|), Value(b'), d);
    }
  }

  /** Appending a digit to both sides of a shifted sum. */
  lemma ShiftDigit(x: int, p: int, v: int, d: int)
    ensures 10 * (x * p + v) + d == x * (10 * p) + (10 * v + d)
  {
    calc {
      10 * (x * p + v) + d;
      10 * (x * p) + (10 * v + d);
      (10 * x) * p + (10 * v + d);
      x * (10 * p) + (10 * v + d);
    }
  }

  /** Canonical decimal form of a natural number: no sign, no leading zero. */
  function NatToString(n: nat): (r: string)
    ensures r != [] && AllDigits(r) && Value(r) == n
    ensures r[0] == '0' ==> r == "0"
  {
    if n < 10 then [DigitChar(n)]
    else
      var r := NatToString(n / 10) + [DigitChar(n % 10)];
      assert r[..|r| - 1] == NatToString(n / 10);
      r
  }

  /** `str(i)` for a Python int. */
  function IntToString(i: int): string {
    SignText(i < 0) + NatToString(if i < 0 then -i else i)
  }

  /** `n` written with exactly `width` digits, zero-padded on the left. */
  function Digits(n: nat, width: nat): (r: string)
    requires n < Pow10(width)
    ensures |r| == width && AllDigits(r) && Value(r) == n
  {
    if width == 0 then ""
    else
      var r := Digits(n / 10, width - 1) + [DigitChar(n % 10)];
      assert r[..|r| - 1] == Digits(n / 10, width - 1);
      r
  }

  /** Splits an optional leading '+' or '-' off `s`: whether it was '-', and the rest. */
  function SplitSign(s: string): (r: (bool, string))
    ensures |r.1| <= |s|
  {
    if |s| > 0 && (s[0] == '-' || s[0] == '+') then (s[0] == '-', s[1..]) else (false, s)
  }

  /**
   * The integer a text cell denotes: an optional sign followed by one or more
   * ASCII digits; anything else is not an integer.
   */
  function ParseInt(s: string): (r: Option<int>)
    ensures r.Some? <==> SplitSign(s).1 != [] && AllDigits(SplitSign(s).1)
  {
    var (negative, digits) := SplitSign(s);
    if digits != [] && AllDigits(digits) then
      var v: int := Value(digits);
      Some(if negative then -v else v)
    else None
  }

  /** The signs a number may start with: none, '-' or '+'. */
  predicate IsSign(sign: string) {
    sign == "" || sign == "-" || sign == "+"
  }

  /** A sign in front of a text that does not itself start with one is split off again. */
  lemma SplitSignText(sign: string, body: string)
    requires IsSign(sign) && body != [] && body[0] != '-' && body[0] != '+'
    ensures SplitSign(sign + body) == (sign == "-", body)
  {
    if sign == "" {
      assert sign + body == body;
    } else {
      assert (sign + body)[1..] == body;
    }
  }

  /** Any sign and any non-empty run of digits, leading zeros included, is read as that value. */
  lemma ParseIntText(sign: string, w: string)
    requires IsSign(sign) && w != [] && AllDigits(w)
    ensures ParseInt(sign + w) == Some(if sign == "-" then -(Value(w) as int) else Value(w))
  {
    SplitSignText(sign, w);
  }

  /** Every text read as an integer is a sign and a non-empty run of digits, with that value. */
  lemma ParseIntShape(s: string) returns (sign: string, w: string)
    requires ParseInt(s).Some?
    ensures IsSign(sign) && w != [] && AllDigits(w) && s == sign + w
    ensures ParseInt(s) == Some(if sign == "-" then -(Value(w) as int) else Value(w))
  {
    if s[0] == '-' || s[0] == '+' {
      sign, w := s[..1], s[1..];
    } else {
      sign, w := "", s;
    }
    assert s == sign + w;
    ParseIntText(sign, w);
  }

  /** Leading zeros and '+' are read: "007" is 7 and "+5" is 5; a sign alone or inside is not a number. */
  lemma ParseIntExamples()
    ensures ParseInt("007") == Some(7) && ParseInt("+5") == Some(5) && ParseInt("-12") == Some(-12)
    ensures ParseInt("+") == None && ParseInt("1-2") == None && ParseInt("+-1") == None
  {
    assert Value("007") == 7 by {
      assert "0"[..0] == [] && "00"[..1] == "0" && "007"[..2] == "00";
    }
    assert Value("12") == 12 by {
      assert "1"[..0] == [] && "12"[..1] == "1";
    }
    ParseIntText("", "007");
    ParseIntText("+", "5");
    ParseIntText("-", "12");
    assert !IsDigit("1-2"[1]);
    assert !IsDigit("-1"[0]);
  }

  /** Every integer's canonical text parses back to it. */
  lemma ParseIntRoundTrip(i: int)
    ensures ParseInt(IntToString(i)) == Some(i)
  {
    var w := NatToString(if i < 0 then -i else i);
    SplitSignOf(i < 0, w);
  }

  /** An exact decimal number: `mantissa / 10^scale`. */
  datatype Decimal = Decimal(mantissa: int, scale: nat)

  /** Index of the first `c` in `s`, or `|s|` when there is none. */
  function IndexOf(s: string, c: char): (k: nat)
    ensures k <= |s| && c !in s[..k]
    ensures k < |s| ==> s[k] == c
  {
    if s == [] then 0
    else if s[0] == c then 0
    else
      var k := 1 + IndexOf(s[1..], c);
      assert s[..k] == [s[0]] + s[1..][..k - 1];
      k
  }

  /**
   * The decimal a text cell denotes: an optional sign, digits, an optional '.'
   * and more digits, with at least one digit in all. `"1000.50"` is
   * `Decimal(100050, 2)`; trailing zeros are kept in the scale.
   */
  function ParseDecimal(s: string): (r: Option<Decimal>)
    ensures r.Some? ==> '.' in s || r.value.scale == 0
  {
    var (negative, body) := SplitSign(s);
    var k := IndexOf(body, '.');
    var whole := body[..k];
    var frac := if k < |body| then body[k + 1..] else "";
    if AllDigits(whole) && AllDigits(frac) && |whole| + |frac| > 0 then
      ValueConcat(whole, frac);
      var m: int := Value(whole + frac);
      Some(Decimal(if negative then -m else m, |frac|))
    else None
  }

  /** A decimal's text holds nothing but a sign, digits and a point. */
  lemma ParseDecimalChars(s: string, c: char)
    requires ParseDecimal(s).Some? && c in s
    ensures IsDigit(c) || c == '-' || c == '+' || c == '.'
  {
    var (negative, body) := SplitSign(s);
    var k := IndexOf(body, '.');
    if c !in body {
      assert s[0] == c;
    } else {
      var i :| 0 <= i < |body| && body[i] == c;
      if i < k {
        assert body[..k][i] == c;
      } else if i > k {
        assert body[k + 1..][i - k - 1] == c;
      }
    }
  }

  /** Euclidean division by a positive divisor. */
  lemma DivMod(a: nat, p: nat)
    requires p >= 1
    ensures a / p >= 0 && a % p < p && a == (a / p) * p + a % p
  {
  }

  /** Plain decimal text for `d`, with exactly `d.scale` digits after the point. */
  function RenderDecimal(d: Decimal): string {
    var sign := SignText(d.mantissa < 0);
    var a: nat := if d.mantissa < 0 then -d.mantissa else d.mantissa;
    var p := Pow10(d.scale);
    DivMod(a, p);
    var q, rem := a / p, a % p;
    if d.scale == 0 then sign + NatToString(a)
    else sign + (NatToString(q) + "." + Digits(rem, d.scale))
  }

  /** The sign `str` writes in front of a number. */
  function SignText(negative: bool): string {
    if negative then "-" else ""
  }

  /** A sign in front of a digit is split off again. */
  lemma SplitSignOf(negative: bool, body: string)
    requires body != [] && IsDigit(body[0])
    ensures SplitSign(SignText(negative) + body) == (negative, body)
  {
    var sign := SignText(negative);
    if negative {
      assert (sign + body)[1..] == body;
    } else {
      assert sign + body == body;
    }
  }

  /** Searching for a non-digit skips a leading run of digits. */
  lemma {:induction false} IndexOfAfterDigits(w: string, rest: string, c: char)
    requires AllDigits(w) && !IsDigit(c)
    ensures IndexOf(w + rest, c) == |w| + IndexOf(rest, c)
  {
    if w == [] {
      assert w + rest == rest;
    } else {
      assert (w + rest)[1..] == w[1..] + rest;
      IndexOfAfterDigits(w[1..], rest, c);
    }
  }

  /** The first '.' after a run of digits is the one that follows them. */
  lemma IndexOfPoint(w: string, f: string)
    requires AllDigits(w)
    ensures IndexOf(w + "." + f, '.') == |w|
    ensures (w + "." + f)[..|w|] == w && (w + "." + f)[|w| + 1..] == f
  {
    assert w + "." + f == w + ("." + f);
    IndexOfAfterDigits(w, "." + f, '.');
  }

  /** Parsing signed digits, a point and digits. */
  lemma ParseDecimalPoint(negative: bool, w: string, f: string)
    requires w != [] && AllDigits(w) && AllDigits(f)
    ensures AllDigits(w + f)
    ensures ParseDecimal(SignText(negative) + (w + "." + f))
         == Some(Decimal(if negative then -(Value(w + f) as int) else Value(w + f), |f|))
  {
    SplitSignOf(negative, w + "." + f);
    IndexOfPoint(w, f);
    ValueConcat(w, f);
  }

  /** Parsing signed digits without a point. */
  lemma ParseDecimalWhole(negative: bool, w: string)
    requires w != [] && AllDigits(w)
    ensures ParseDecimal(SignText(negative) + w) == Some(Decimal(if negative then -(Value(w) as int) else Value(w), 0))
  {
    SplitSignOf(negative, w);
    IndexOfAfterDigits(w, "", '.');
    assert w + "" == w;
  }

  /**
   * Any sign, whole digits and, after an optional point, fraction digits (one digit at
   * least in all, so ".5" and "5." count) are read as that decimal.
   */
  lemma ParseDecimalText(sign: string, w: string, point: bool, f: string)
    requires IsSign(sign) && AllDigits(w) && AllDigits(f) && |w| + |f| > 0 && (point || f == [])
    ensures AllDigits(w + f)
    ensures ParseDecimal(sign + (w + (if point then "." else "") + f))
         == Some(Decimal(if sign == "-" then -(Value(w + f) as int) else Value(w + f), |f|))
  {
    var body := w + (if point then "." else "") + f;
    PointJoin(w, point, f);
    SplitSignText(sign, body);
    ParseDecimalCut(sign + body, w, f);
  }

  /** A text whose unsigned part cuts at its first '.' into digits `w` and `f` is read as their value. */
  lemma ParseDecimalCut(s: string, w: string, f: string)
    requires var body := SplitSign(s).1; var k := IndexOf(body, '.');
      body[..k] == w && (if k < |body| then body[k + 1..] else "") == f
    requires AllDigits(w) && AllDigits(f) && |w| + |f| > 0
    ensures AllDigits(w + f)
    ensures ParseDecimal(s) == Some(Decimal(if SplitSign(s).0 then -(Value(w + f) as int) else Value(w + f), |f|))
  {
    ValueConcat(w, f);
  }

  /** Whole digits, an optional point and fraction digits are cut back apart at the point. */
  lemma PointJoin(w: string, point: bool, f: string)
    requires AllDigits(w) && AllDigits(f) && |w| + |f| > 0 && (point || f == [])
    ensures var body := w + (if point then "." else "") + f;
      && body != [] && body[0] != '-' && body[0] != '+'
      && IndexOf(body, '.') == |w| && body[..|w|] == w
      && (point <==> |w| < |body|)
      && (if |w| < |body| then body[|w| + 1..] else "") == f
  {
    var body := w + (if point then "." else "") + f;
    if point {
      IndexOfPoint(w, f);
      assert body == w + "." + f;
    } else {
      assert body == w + "" && f == [];
      IndexOfAfterDigits(w, "", '.');
    }
    if w != [] {
      assert body[0] == w[0];
    } else if point {
      assert body[0] == '.';
    }
  }

  /** Every text read as a decimal is a sign, whole digits, an optional point and fraction digits. */
  lemma ParseDecimalShape(s: string) returns (sign: string, w: string, point: bool, f: string)
    requires ParseDecimal(s).Some?
    ensures IsSign(sign) && AllDigits(w) && AllDigits(f) && |w| + |f| > 0 && (point || f == [])
    ensures s == sign + (w + (if point then "." else "") + f)
    ensures AllDigits(w + f)
    ensures ParseDecimal(s) == Some(Decimal(if sign == "-" then -(Value(w + f) as int) else Value(w + f), |f|))
  {
    var body := SplitSign(s).1;
    sign := SignOf(s);
    w, point, f := PointSplit(body);
    assert AllDigits(w) && AllDigits(f) && |w| + |f| > 0;
    ParseDecimalText(sign, w, point, f);
  }

  /** The sign `SplitSign` removes, as text. */
  lemma SignOf(s: string) returns (sign: string)
    ensures IsSign(sign) && s == sign + SplitSign(s).1 && SplitSign(s).0 == (sign == "-")
  {
    if |s| > 0 && (s[0] == '-' || s[0] == '+') {
      sign := s[..1];
    } else {
      sign := "";
    }
  }

  /** A text cut at its first '.': the part before it, whether there is one, and the part after it. */
  lemma PointSplit(body: string) returns (w: string, point: bool, f: string)
    ensures var k := IndexOf(body, '.');
      && w == body[..k] && point == (k < |body|) && f == (if k < |body| then body[k + 1..] else "")
    ensures body == w + (if point then "." else "") + f
  {
    var k := IndexOf(body, '.');
    w := body[..k];
    point := k < |body|;
    f := if point then body[k + 1..] else "";
    if point {
      assert body == body[..k] + [body[k]] + body[k + 1..];
    } else {
      assert body == w + "" + f;
    }
  }

  /** A second point, or a sign anywhere but in front, makes a text no decimal. */
  lemma NotDecimals()
    ensures ParseDecimal("1.2.3") == None
    ensures ParseDecimal("1-2") == None
    ensures ParseDecimal("+-1") == None
    ensures ParseDecimal(".") == None
  {
    assert !IsDigit("2.3"[1]);
    assert !IsDigit("1-2"[1]);
    assert !IsDigit("-1"[0]);
  }

  /** The fraction form of a decimal text: whole digits, a point, the padded fraction. */
  lemma ParsePointText(negative: bool, q: nat, rem: nat, scale: nat, m: nat)
    requires scale > 0 && rem < Pow10(scale) && m == q * Pow10(scale) + rem
    ensures ParseDecimal(SignText(negative) + (NatToString(q) + "." + Digits(rem, scale)))
         == Some(Decimal(if negative then -(m as int) else m, scale))
  {
    var w, f := NatToString(q), Digits(rem, scale);
    ValueConcat(w, f);
    var v := Value(w + f);
    assert v == m by {
      assert Value(w) == q && |f| == scale && Value(f) == rem;
    }
    ParseDecimalPoint(negative, w, f);
    var text := SignText(negative) + (w + "." + f);
    if negative {
      assert ParseDecimal(text) == Some(Decimal(-(v as int), scale));
    } else {
      assert ParseDecimal(text) == Some(Decimal(v, scale));
    }
  }

  /** Every exact decimal's text parses back to it, scale included. */
  lemma ParseDecimalRoundTrip(d: Decimal)
    ensures ParseDecimal(RenderDecimal(d)) == Some(d)
  {
    var negative := d.mantissa < 0;
    var a: nat := if negative then -d.mantissa else d.mantissa;
    if d.scale == 0 {
      ParseDecimalWhole(negative, NatToString(a));
    } else {
      var p := Pow10(d.scale);
      DivMod(a, p);
      ParsePointText(negative, a / p, a % p, d.scale, a);
    }
  }
}
