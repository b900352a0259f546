/** CSV cells, the numeric coercion the scripts apply to them
    (`read_csv` followed by `pd.to_numeric(..., errors='coerce')`), and clamping of values
    into a range. */
module Cells {

  /** A cell value or a missing one: NaN and `pd.NA` are both `None`. */
  datatype Option<+T> = None | Some(value: T)

  predicate IsDigit(c: char)
  {
    '0' <= c <= '9'
  }

  predicate AllDigits(s: string)
  {
    forall i :: 0 <= i < |s| ==> IsDigit(s[i])
  }

  function DigitValue(c: char): nat
    requires IsDigit(c)
  {
    (c as int) - ('0' as int)
  }

  /** The value of a decimal digit string, most significant digit first. */
  function DigitsValue(s: string): nat
    requires AllDigits(s)
  {
    if s == [] then 0 else DigitsValue(s[..|s| - 1]) * 10 + DigitValue(s[|s| - 1])
  }

  function Pow10(k: nat): (p: nat)
    ensures p >= 1
  {
    if k == 0 then 1 else 10 * Pow10(k - 1)
  }

  /** Position of the first '.' in `s`, or `|s|` when there is none. */
  function DotIndex(s: string): (i: nat)
    ensures i <= |s|
    ensures i < |s| ==> s[i] == '.'
    ensures forall j :: 0 <= j < i ==> s[j] != '.'
  {
    if s == [] || s[0] == '.' then 0 else 1 + DotIndex(s[1..])
  }

  /** The number written `whole.fraction` in decimal: the fraction digits count in units of
      ten to the minus their number. */
  function DecimalNumber(whole: string, fraction: string): real
    requires AllDigits(whole) && AllDigits(fraction)
  {
    DigitsValue(whole) as real + DigitsValue(fraction) as real / Pow10(|fraction|) as real
  }

  /** The value of a whole part and a fraction part of digits, at least one digit in all. */
  function DecimalParts(whole: string, fraction: string): Option<real>
  {
    if AllDigits(whole) && AllDigits(fraction) && |whole| + |fraction| > 0 then
      Some(DecimalNumber(whole, fraction))
    else
      None
  }

  /** Unsigned decimal text: digits with at most one decimal point and at least one digit. */
  function Magnitude(body: string): (r: Option<real>)
    ensures r.Some? ==> |body| > 0
    ensures r.Some? ==> forall i :: 0 <= i < |body| ==> IsDigit(body[i]) || body[i] == '.'
  {
    var dot := DotIndex(body);
    if dot < |body| then
      assert forall i :: dot < i < |body| ==> body[i] == body[dot + 1..][i - dot - 1];
      DecimalParts(body[..dot], body[dot + 1..])
    else
      assert body[..dot] == body;
      DecimalParts(body, "")
  }

  /** The text of a cell, read as a number: an optional sign, then digits with at most one
      decimal point and at least one digit. Anything else, the empty cell included, is missing. */
  function ToNumeric(s: string): (r: Option<real>)
    ensures r.Some? ==> |s| > 0
    ensures r.Some? ==> forall i :: 0 <= i < |s| ==> IsDigit(s[i]) || s[i] in ".+-"
  {
    var negative := |s| > 0 && s[0] == '-';
    var body := if |s| > 0 && (s[0] == '-' || s[0] == '+') then s[1..] else s;
    match Magnitude(body)
    case None => None
    case Some(m) => Some(if negative then -m else m)
  }

  /** Unsigned numeric text, read off directly: a non-empty digit string, or digit strings
      on both sides of a single point with at least one digit in all. */
  predicate UnsignedNumeral(t: string)
  {
    || (|t| > 0 && AllDigits(t))
    || (exists k :: 0 <= k < |t| && t[k] == '.' && AllDigits(t[..k]) && AllDigits(t[k + 1..]) && |t| > 1)
  }

  /** The texts that coerce to a number: an optional sign, then unsigned numeric text. */
  predicate NumericText(s: string)
  {
    |s| > 0 && if s[0] == '-' || s[0] == '+' then UnsignedNumeral(s[1..]) else UnsignedNumeral(s)
  }

  /** The point `DotIndex` finds is the one a numeral is written around. */
  lemma PointOfNumeral(t: string, k: nat)
    requires k < |t| && t[k] == '.' && AllDigits(t[..k])
    ensures DotIndex(t) == k
  {
    assert forall j :: 0 <= j < k ==> t[j] == t[..k][j];
  }

  /** Digits contain no point, so `DotIndex` runs to the end. */
  lemma NoPointInDigits(t: string)
    requires AllDigits(t)
    ensures DotIndex(t) == |t|
  {
    if DotIndex(t) < |t| {
      assert IsDigit(t[DotIndex(t)]);
    }
  }

  lemma MagnitudeDefined(t: string)
    ensures Magnitude(t).Some? <==> UnsignedNumeral(t)
  {
    var dot := DotIndex(t);
    if dot < |t| {
      var w, f := t[..dot], t[dot + 1..];
      assert |w| + |f| + 1 == |t|;
      if Magnitude(t).Some? {
        assert t[dot] == '.' && AllDigits(w) && AllDigits(f);
      } else if UnsignedNumeral(t) {
        assert !AllDigits(t) by {
          assert !IsDigit(t[dot]);
        }
        var k :| 0 <= k < |t| && t[k] == '.' && AllDigits(t[..k]) && AllDigits(t[k + 1..]) && |t| > 1;
        PointOfNumeral(t, k);
      }
    } else {
      assert t[..dot] == t;
    }
  }

  /** Coercion yields a number exactly for numeric text: an optional sign, then digits with
      at most one point and at least one digit. Everything else is missing. */
  lemma ToNumericDefined(s: string)
    ensures ToNumeric(s).Some? <==> NumericText(s)
  {
    if |s| > 0 && (s[0] == '-' || s[0] == '+') {
      MagnitudeDefined(s[1..]);
    } else {
      MagnitudeDefined(s);
    }
  }

  /** Unsigned numeric text holds a digit. */
  lemma NumeralHasDigit(t: string)
    requires UnsignedNumeral(t)
    ensures exists i :: 0 <= i < |t| && IsDigit(t[i])
  {
    if |t| > 0 && AllDigits(t) {
      assert IsDigit(t[0]);
    } else {
      var k :| 0 <= k < |t| && t[k] == '.' && AllDigits(t[..k]) && AllDigits(t[k + 1..]) && |t| > 1;
      if k > 0 {
        assert IsDigit(t[..k][0]);
      } else {
        assert IsDigit(t[k + 1..][0]);
      }
    }
  }

  /** Text without a digit is missing: the empty cell, a lone sign, and the census
      "not available" markers such as ".." and "...". */
  lemma NoDigitIsMissing(s: string)
    requires forall i :: 0 <= i < |s| ==> !IsDigit(s[i])
    ensures ToNumeric(s) == None
  {
    ToNumericDefined(s);
    if |s| > 0 {
      var t := if s[0] == '-' || s[0] == '+' then s[1..] else s;
      if UnsignedNumeral(t) {
        NumeralHasDigit(t);
      }
    }
  }

  /** Text with two points is missing. */
  lemma TwoPointsIsMissing(s: string, i: nat, j: nat)
    requires i < j < |s| && s[i] == '.' && s[j] == '.'
    ensures ToNumeric(s) == None
  {
    ToNumericDefined(s);
  }

  /** A sign anywhere but the first position makes the text missing. */
  lemma InnerSignIsMissing(s: string, i: nat)
    requires 0 < i < |s| && (s[i] == '-' || s[i] == '+')
    ensures ToNumeric(s) == None
  {
    ToNumericDefined(s);
  }

  /** The census "not available" markers and a lone sign coerce to missing. */
  lemma NotAvailableIsMissing()
    ensures ToNumeric("..") == None && ToNumeric("...") == None && ToNumeric("-") == None
  {
    NoDigitIsMissing("..");
    NoDigitIsMissing("...");
    NoDigitIsMissing("-");
  }

  /** A second point or an inner sign makes a cell missing. */
  lemma MisplacedIsMissing()
    ensures ToNumeric("1.2.3") == None && ToNumeric("1-2") == None
  {
    TwoPointsIsMissing("1.2.3", 1, 3);
    InnerSignIsMissing("1-2", 1);
  }

  /** A digit string, leading zeros included, coerces to its value. */
  lemma WholeValue(w: string)
    requires |w| > 0 && AllDigits(w)
    ensures ToNumeric(w) == Some(DigitsValue(w) as real)
  {
    assert IsDigit(w[0]);
    NoPointInDigits(w);
    assert Magnitude(w) == DecimalParts(w, "") by {
      assert w[..|w|] == w;
    }
    assert DecimalNumber(w, "") == DigitsValue(w) as real by {
      assert DigitsValue("") == 0 && Pow10(0) == 1;
    }
    UnsignedText(w);
  }

  /** A leading `+` sign changes nothing. */
  lemma PlusIgnored(t: string)
    requires |t| > 0 && t[0] != '-' && t[0] != '+'
    ensures ToNumeric("+" + t) == ToNumeric(t)
  {
    assert ("+" + t)[1..] == t;
    UnsignedText(t);
  }

  function DigitChar(d: nat): (c: char)
    requires d < 10
    ensures IsDigit(c) && DigitValue(c) == d
  {
    ('0' as int + d) as char
  }

  /** The decimal text of `n`, as a CSV writer prints an integer count. */
  function Numeral(n: nat): (s: string)
    ensures |s| > 0 && AllDigits(s)
  {
    if n < 10 then [DigitChar(n)] else Numeral(n / 10) + [DigitChar(n % 10)]
  }

  lemma {:induction false} NumeralValue(n: nat)
    ensures DigitsValue(Numeral(n)) == n
  {
    if n >= 10 {
      var s := Numeral(n);
      NumeralValue(n / 10);
      assert s[..|s| - 1] == Numeral(n / 10);
    }
  }

  /** Coercing the printed form of a count gives the count back. */
  lemma NumeralRoundTrip(n: nat)
    ensures ToNumeric(Numeral(n)) == Some(n as real)
  {
    var s := Numeral(n);
    NumeralValue(n);
    assert forall i :: 0 <= i < |s| ==> s[i] != '.';
    assert IsDigit(s[0]);
    assert s[..|s|] == s;
  }

  /** A leading minus sign negates the value. */
  lemma NegativeNumeralRoundTrip(n: nat)
    ensures ToNumeric("-" + Numeral(n)) == Some(-(n as real))
  {
    var s := Numeral(n);
    NumeralValue(n);
    assert ("-" + s)[1..] == s;
    assert forall i :: 0 <= i < |s| ==> s[i] != '.';
    assert s[..|s|] == s;
  }

  /** The point of `w + "." + f` is the first one when `w` is made of digits. */
  lemma {:induction false} DotAfterDigits(w: string, f: string)
    requires AllDigits(w)
    ensures DotIndex(w + "." + f) == |w|
  {
    var s := w + "." + f;
    assert s[|w|] == '.';
    assert forall j :: 0 <= j < |w| ==> s[j] == w[j];
  }

  lemma DecimalMagnitude(w: string, f: string)
    requires AllDigits(w) && AllDigits(f) && |w| + |f| > 0
    ensures Magnitude(w + "." + f) == DecimalParts(w, f)
  {
    var s := w + "." + f;
    DotAfterDigits(w, f);
    assert s[..|w|] == w;
    assert s[|w| + 1..] == f;
  }

  lemma UnsignedText(s: string)
    requires |s| > 0 && s[0] != '-' && s[0] != '+'
    ensures ToNumeric(s) == Magnitude(s)
  {
  }

  lemma DecimalPartsValue(w: string, f: string)
    requires AllDigits(w) && AllDigits(f) && |w| + |f| > 0
    ensures DecimalParts(w, f) == Some(DecimalNumber(w, f))
  {
  }

  /** A decimal text `w.f` coerces to its whole part plus its fraction digits scaled down
      by their count. */
  lemma DecimalValue(w: string, f: string)
    requires AllDigits(w) && AllDigits(f) && |w| + |f| > 0
    ensures ToNumeric(w + "." + f) == Some(DecimalNumber(w, f))
  {
    var s := w + "." + f;
    assert s[0] == if |w| > 0 then w[0] else '.';
    UnsignedText(s);
    DecimalMagnitude(w, f);
    DecimalPartsValue(w, f);
  }

  /** A minus sign before a decimal text negates its value. */
  lemma NegativeDecimalValue(w: string, f: string)
    requires AllDigits(w) && AllDigits(f) && |w| + |f| > 0
    ensures ToNumeric("-" + w + "." + f) == Some(-DecimalNumber(w, f))
  {
    DecimalValue(w, f);
    SignBeforeDecimal(w, f);
    assert (w + "." + f)[0] == if |w| > 0 then w[0] else '.';
    NegatedNumber("-" + w + "." + f, w + "." + f);
  }

  /** A minus sign before unsigned numeric text negates its value. */
  lemma NegatedNumber(t: string, s: string)
    requires t == "-" + s && |s| > 0 && s[0] != '-' && s[0] != '+' && ToNumeric(s).Some?
    ensures ToNumeric(t) == Some(-ToNumeric(s).value)
  {
    assert t[1..] == s;
  }

  lemma SignBeforeDecimal(w: string, f: string)
    ensures "-" + w + "." + f == "-" + (w + "." + f)
  {
  }

  /** Coordinates as the census file prints them: "49.28" and "-123.12" read as those numbers. */
  lemma ExampleCoordinates()
    ensures ToNumeric("49.28") == Some(49.28)
    ensures ToNumeric("-123.12") == Some(-123.12)
  {
    ExampleLatitude();
    ExampleLongitude();
  }

  lemma TwoDigits(a: char, b: char)
    requires IsDigit(a) && IsDigit(b)
    ensures DigitsValue([a, b]) == 10 * DigitValue(a) + DigitValue(b)
  {
    assert DigitsValue([a]) == DigitValue(a) by {
      assert [a][..0] == [];
    }
    assert [a, b][..1] == [a];
    assert DigitsValue([a, b]) == DigitsValue([a]) * 10 + DigitValue(b);
  }

  lemma ExampleLatitude()
    ensures ToNumeric("49.28") == Some(49.28)
  {
    assert DecimalNumber("49", "28") == 49.28 by {
      TwoDigits('4', '9');
      TwoDigits('2', '8');
      assert Pow10(2) == 100;
    }
    assert "49" + "." + "28" == "49.28";
    DecimalValue("49", "28");
  }

  lemma ExampleLongitude()
    ensures ToNumeric("-123.12") == Some(-123.12)
  {
    assert DecimalNumber("123", "12") == 123.12 by {
      TwoDigits('1', '2');
      assert "123"[..2] == "12";
      assert Pow10(2) == 100;
    }
    assert "-" + "123" + "." + "12" == "-123.12";
    NegativeDecimalValue("123", "12");
  }

  /** The first coordinate mask, on a (latitude, longitude) pair of cells: both coerce to
      numbers. */
  predicate NumericPair(latitude: string, longitude: string)
  {
    ToNumeric(latitude).Some? && ToNumeric(longitude).Some?
  }

  /** The second coordinate mask: neither coordinate equals 0. A missing value compares
      unequal to 0, as NaN does. */
  predicate NonZeroPair(latitude: string, longitude: string)
  {
    ToNumeric(latitude) != Some(0.0) && ToNumeric(longitude) != Some(0.0)
  }

  /** A value forced into [lower, upper]: `Series.clip(lower, upper)`, or `min(max(x, lower), upper)`. */
  function Clip(x: real, lower: real, upper: real): (r: real)
    requires lower <= upper
    ensures lower <= r <= upper
    ensures lower <= x <= upper ==> r == x
    ensures x < lower ==> r == lower
    ensures x > upper ==> r == upper
  {
    if x < lower then lower else if x > upper then upper else x
  }
}
