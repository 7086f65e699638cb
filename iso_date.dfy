/**
 * The `YYYY-MM-DD` text form of a date: the formatter `strftime("%Y-%m-%d")`
 * and the parser for the date strings stored in the measurement table.
 */
module IsoDate {
  import opened Wrappers
  import opened Calendar
  import opened TextOrder

  predicate IsDigit(c: char) {
    '0' <= c <= '9'
  }

  predicate AllDigits(s: string) {
    forall i :: 0 <= i < |s| ==> IsDigit(s[i])
  }

  function DigitChar(k: int): (c: char)
    requires 0 <= k <= 9
    ensures IsDigit(c)
  {
    (48 + k) as char
  }

  function DigitValue(c: char): (k: int)
    requires IsDigit(c)
    ensures 0 <= k <= 9 && DigitChar(k) == c
  {
    c as int - 48
  }

  function Pow10(w: nat): nat {
    if w == 0 then 1 else 10 * Pow10(w - 1)
  }

  /** `n` written with exactly `w` decimal digits, zero-padded on the left. */
  function Digits(n: nat, w: nat): (s: string)
    ensures |s| == w && AllDigits(s)
  {
    if w == 0 then [] else Digits(n / 10, w - 1) + [DigitChar(n % 10)]
  }

  /** The number a string of decimal digits denotes. */
  function Value(s: string): nat
    requires AllDigits(s)
  {
    if |s| == 0 then 0 else 10 * Value(s[..|s| - 1]) + DigitValue(s[|s| - 1])
  }

  lemma {:induction false} ValueOfDigits(n: nat, w: nat)
    requires n < Pow10(w)
    ensures Value(Digits(n, w)) == n
  {
    if w > 0 {
      var s := Digits(n, w);
      assert s[..w - 1] == Digits(n / 10, w - 1);
      ValueOfDigits(n / 10, w - 1);
    }
  }

  lemma {:induction false} DigitsOfValue(s: string)
    requires AllDigits(s)
    ensures Value(s) < Pow10(|s|) && Digits(Value(s), |s|) == s
  {
    if |s| > 0 {
      var init := s[..|s| - 1];
      DigitsOfValue(init);
      var v := Value(s);
      assert v / 10 == Value(init) && v % 10 == DigitValue(s[|s| - 1]);
      assert s == init + [s[|s| - 1]];
    }
  }

  /** Fixed-width digit strings sort as text exactly as their numbers do. */
  lemma {:induction false} DigitsOrder(x: nat, y: nat, w: nat)
    requires x < Pow10(w) && y < Pow10(w)
    ensures TextLe(Digits(x, w), Digits(y, w)) <==> x <= y
  {
    if w == 0 {
    } else {
      var px, py := Digits(x / 10, w - 1), Digits(y / 10, w - 1);
      var cx, cy := [DigitChar(x % 10)], [DigitChar(y % 10)];
      TextLeConcat(px, cx, py, cy);
      DigitsOrder(x / 10, y / 10, w - 1);
      ValueOfDigits(x / 10, w - 1);
      ValueOfDigits(y / 10, w - 1);
      assert px == py <==> x / 10 == y / 10;
      assert TextLe(cx, cy) <==> x % 10 <= y % 10 by {
        assert cx[1..] == [] && cy[1..] == [];
      }
    }
  }

  /** A date that `%Y-%m-%d` writes with a four-digit year. */
  predicate Formattable(d: Date) {
    ValidDate(d) && d.year <= 9999
  }

  /** `strftime("%Y-%m-%d")`. */
  function Format(d: Date): (s: string)
    requires Formattable(d)
    ensures |s| == 10
  {
    Digits(d.year, 4) + ("-" + (Digits(d.month, 2) + ("-" + Digits(d.day, 2))))
  }

  /** Reads a `YYYY-MM-DD` string; `None` when it is not one or names no day. */
  function Parse(s: string): (r: Option<Date>)
    ensures r.Some? ==> Formattable(r.value)
  {
    if |s| == 10 && s[4] == '-' && s[7] == '-'
       && AllDigits(s[..4]) && AllDigits(s[5..7]) && AllDigits(s[8..])
    then
      DigitsOfValue(s[..4]);
      var d := Date(Value(s[..4]), Value(s[5..7]), Value(s[8..]));
      if ValidDate(d) then Some(d) else None
    else None
  }

  /** Parsing a formatted date gives the date back. */
  lemma ParseFormat(d: Date)
    requires Formattable(d)
    ensures Parse(Format(d)) == Some(d)
  {
    var s := Format(d);
    assert s[..4] == Digits(d.year, 4);
    assert s[5..7] == Digits(d.month, 2);
    assert s[8..] == Digits(d.day, 2);
    ValueOfDigits(d.year, 4);
    ValueOfDigits(d.month, 2);
    ValueOfDigits(d.day, 2);
  }

  /** A string that parses is the canonical form of its date. */
  lemma FormatParse(s: string)
    requires Parse(s).Some?
    ensures Format(Parse(s).value) == s
  {
    DigitsOfValue(s[..4]);
    DigitsOfValue(s[5..7]);
    DigitsOfValue(s[8..]);
    assert s == s[..4] + ("-" + (s[5..7] + ("-" + s[8..])));
  }

  /** Formatted dates sort as text in calendar order. */
  lemma FormatOrder(a: Date, b: Date)
    requires Formattable(a) && Formattable(b)
    ensures TextLe(Format(a), Format(b)) <==> ToOrdinal(a) <= ToOrdinal(b)
  {
    var ya, yb := Digits(a.year, 4), Digits(b.year, 4);
    var ma, mb := Digits(a.month, 2), Digits(b.month, 2);
    var da, db := Digits(a.day, 2), Digits(b.day, 2);
    ValueOfDigits(a.year, 4); ValueOfDigits(b.year, 4);
    ValueOfDigits(a.month, 2); ValueOfDigits(b.month, 2);
    ValueOfDigits(a.day, 2); ValueOfDigits(b.day, 2);
    DigitsOrder(a.year, b.year, 4);
    DigitsOrder(a.month, b.month, 2);
    DigitsOrder(a.day, b.day, 2);
    var ra, rb := "-" + (ma + ("-" + da)), "-" + (mb + ("-" + db));
    TextLeConcat(ya, ra, yb, rb);
    TextLeConcat("-", ma + ("-" + da), "-", mb + ("-" + db));
    TextLeConcat(ma, "-" + da, mb, "-" + db);
    TextLeConcat("-", da, "-", db);
    assert ya == yb <==> a.year == b.year;
    assert ma == mb <==> a.month == b.month;
    OrdinalOrder(a, b);
  }

  /**
   * For well-formed date strings, comparing them as text (what the SQL
   * filters do) is comparing the days they name.
   */
  lemma TextOrderIsDayOrder(s: string, t: string)
    requires Parse(s).Some? && Parse(t).Some?
    ensures TextLe(s, t) <==> ToOrdinal(Parse(s).value) <= ToOrdinal(Parse(t).value)
  {
    FormatParse(s);
    FormatParse(t);
    FormatOrder(Parse(s).value, Parse(t).value);
  }
}
