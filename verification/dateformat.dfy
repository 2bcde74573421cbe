/** The `YYYY-MM-DD` strings under which completions are stored and
    compared. The controllers compare these strings with `===` and sort
    them with `localeCompare`; this module shows that for dates of years
    0000 to 9999 both agree with the calendar, and so with day numbers. */
module DateFormat {
  import opened Calendar
  import opened Wrappers

  function DigitChar(n: int): (c: char)
    requires 0 <= n <= 9
    ensures '0' <= c <= '9'
  {
    (48 + n) as char
  }

  /** `n` written with exactly `width` decimal digits, leading zeros first. */
  function Padded(n: nat, width: nat): (s: string)
    requires n < Pow10(width)
    ensures |s| == width
    ensures forall i :: 0 <= i < width ==> '0' <= s[i] <= '9'
  {
    if width == 0 then ""
    else Padded(n / 10, width - 1) + [DigitChar(n % 10)]
  }

  function Pow10(k: nat): (p: nat)
    ensures p >= 1
  {
    if k == 0 then 1 else 10 * Pow10(k - 1)
  }

  /** A date of years 0000 to 9999 as `toISOString().split('T')[0]`
      writes it. */
  predicate Formattable(d: Date) {
    ValidDate(d) && 0 <= d.year <= 9999
  }

  function Format(d: Date): (s: string)
    requires Formattable(d)
    ensures |s| == 10 && s[4] == '-' && s[7] == '-'
  {
    Padded(d.year, 4) + ("-" + (Padded(d.month, 2) + ("-" + Padded(d.day, 2))))
  }

  /** Lexicographic order on strings: what `localeCompare` computes on
      strings of digits and dashes of equal length. */
  function LexLess(s: string, t: string): (r: bool)
    ensures r ==> s != t
  {
    |s| > 0 && |t| > 0 && (s[0] < t[0] || (s[0] == t[0] && LexLess(s[1..], t[1..])))
  }

  /** Comparing two concatenations whose first parts have equal length
      compares the first parts, then the second parts. */
  lemma {:induction false} LexLessAppend(x: string, y: string, x': string, y': string)
    requires |x| == |x'|
    ensures LexLess(x + y, x' + y') <==> LexLess(x, x') || (x == x' && LexLess(y, y'))
  {
    if |x| > 0 {
      assert (x + y)[1..] == x[1..] + y;
      assert (x' + y')[1..] == x'[1..] + y';
      LexLessAppend(x[1..], y, x'[1..], y');
      if x[0] == x'[0] && x[1..] == x'[1..] {
        assert x == [x[0]] + x[1..] && x' == [x'[0]] + x'[1..];
      }
    } else {
      assert x + y == y && x' + y' == y';
    }
  }

  /** Zero-padded numbers of one width compare as the numbers do, and are
      equal only for equal numbers. */
  lemma {:induction false} PaddedOrder(a: nat, b: nat, width: nat)
    requires a < Pow10(width) && b < Pow10(width)
    ensures LexLess(Padded(a, width), Padded(b, width)) <==> a < b
    ensures Padded(a, width) == Padded(b, width) <==> a == b
  {
    if width > 0 {
      PaddedOrder(a / 10, b / 10, width - 1);
      LexLessAppend(Padded(a / 10, width - 1), [DigitChar(a % 10)],
                    Padded(b / 10, width - 1), [DigitChar(b % 10)]);
      var pa, pb := Padded(a, width), Padded(b, width);
      if pa == pb {
        assert pa[width - 1] == DigitChar(a % 10) && pb[width - 1] == DigitChar(b % 10);
        assert pa[..width - 1] == Padded(a / 10, width - 1);
        assert pb[..width - 1] == Padded(b / 10, width - 1);
      }
    }
  }

  /** Splitting a concatenation at a known length recovers its parts. */
  lemma AppendInjective(x: string, y: string, x': string, y': string)
    requires |x| == |x'| && x + y == x' + y'
    ensures x == x' && y == y'
  {
    assert x == (x + y)[..|x|] && x' == (x' + y')[..|x|];
    assert y == (x + y)[|x|..] && y' == (x' + y')[|x|..];
  }

  /** String order of formatted dates is calendar order. */
  lemma FormatOrder(a: Date, b: Date)
    requires Formattable(a) && Formattable(b)
    ensures LexLess(Format(a), Format(b)) <==> DateBefore(a, b)
  {
    var ya, yb := Padded(a.year, 4), Padded(b.year, 4);
    var ma, mb := Padded(a.month, 2), Padded(b.month, 2);
    var da, db := Padded(a.day, 2), Padded(b.day, 2);
    PaddedOrder(a.year, b.year, 4);
    PaddedOrder(a.month, b.month, 2);
    PaddedOrder(a.day, b.day, 2);
    LexLessAppend(ya, "-" + (ma + ("-" + da)), yb, "-" + (mb + ("-" + db)));
    LexLessAppend("-", ma + ("-" + da), "-", mb + ("-" + db));
    LexLessAppend(ma, "-" + da, mb, "-" + db);
    LexLessAppend("-", da, "-", db);
    assert !LexLess("-", "-");
  }

  /** Two dates have the same string only when they are the same date. */
  lemma FormatInjective(a: Date, b: Date)
    requires Formattable(a) && Formattable(b)
    ensures Format(a) == Format(b) <==> a == b
  {
    if Format(a) == Format(b) {
      var ya, yb := Padded(a.year, 4), Padded(b.year, 4);
      var ma, mb := Padded(a.month, 2), Padded(b.month, 2);
      var da, db := Padded(a.day, 2), Padded(b.day, 2);
      AppendInjective(ya, "-" + (ma + ("-" + da)), yb, "-" + (mb + ("-" + db)));
      AppendInjective("-", ma + ("-" + da), "-", mb + ("-" + db));
      AppendInjective(ma, "-" + da, mb, "-" + db);
      AppendInjective("-", da, "-", db);
      PaddedOrder(a.year, b.year, 4);
      PaddedOrder(a.month, b.month, 2);
      PaddedOrder(a.day, b.day, 2);
    }
  }

  /** Comparing the stored strings, as the controllers do, gives the same
      answers as comparing day numbers. */
  lemma FormatMatchesDayNumbers(a: Date, b: Date)
    requires Formattable(a) && Formattable(b)
    ensures Format(a) == Format(b) <==> ToDayNumber(a) == ToDayNumber(b)
    ensures LexLess(Format(a), Format(b)) <==> ToDayNumber(a) < ToDayNumber(b)
  {
    FormatOrder(a, b);
    FormatInjective(a, b);
    DayNumberOrder(a, b);
  }

  // ---------------------------------------------------------------------
  // Reading back a date string the API writes (`new Date('YYYY-MM-DD')`)

  predicate IsDigit(c: char) {
    '0' <= c <= '9'
  }

  function DigitValue(c: char): (n: nat)
    requires IsDigit(c)
    ensures n <= 9 && DigitChar(n) == c
  {
    c as int - 48
  }

  /** The value of a string of decimal digits. */
  function DigitsValue(s: string): (n: nat)
    requires forall i :: 0 <= i < |s| ==> IsDigit(s[i])
    ensures n < Pow10(|s|)
  {
    if s == [] then 0
    else 10 * DigitsValue(s[..|s| - 1]) + DigitValue(s[|s| - 1])
  }

  lemma {:induction false} DigitsValuePadded(n: nat, width: nat)
    requires n < Pow10(width)
    ensures DigitsValue(Padded(n, width)) == n
  {
    if width > 0 {
      var p := Padded(n, width);
      assert p[..width - 1] == Padded(n / 10, width - 1);
      DigitsValuePadded(n / 10, width - 1);
    }
  }

  lemma {:induction false} PaddedDigitsValue(s: string)
    requires forall i :: 0 <= i < |s| ==> IsDigit(s[i])
    ensures Padded(DigitsValue(s), |s|) == s
  {
    if s != [] {
      var init, last := s[..|s| - 1], s[|s| - 1];
      var n, m, d := DigitsValue(s), DigitsValue(init), DigitValue(last);
      assert n == 10 * m + d;
      assert n / 10 == m && n % 10 == d;
      PaddedDigitsValue(init);
      assert Padded(n, |s|) == Padded(m, |init|) + [DigitChar(d)];
      assert s == init + [last];
    }
  }

  /** The shape `DDDD-DD-DD`, digits everywhere except two dashes. */
  predicate HasDateShape(s: string) {
    |s| == 10 && s[4] == '-' && s[7] == '-' &&
    forall i :: 0 <= i < 10 && i != 4 && i != 7 ==> IsDigit(s[i])
  }

  /** The year, month and day fields of a string of that shape. */
  function Fields(s: string): Date
    requires HasDateShape(s)
  {
    Date(DigitsValue(s[..4]), DigitsValue(s[5..7]), DigitsValue(s[8..]))
  }

  lemma FieldsFormat(s: string)
    requires HasDateShape(s) && ValidDate(Fields(s))
    ensures Formattable(Fields(s)) && Format(Fields(s)) == s
  {
    PaddedDigitsValue(s[..4]);
    PaddedDigitsValue(s[5..7]);
    PaddedDigitsValue(s[8..]);
    assert s == s[..4] + ("-" + (s[5..7] + ("-" + s[8..])));
  }

  /** The date a `YYYY-MM-DD` string names, or `None` when the string does
      not have that shape or names no calendar day. */
  function Parse(s: string): (r: Option<Date>)
    ensures r.Some? ==> Formattable(r.value) && Format(r.value) == s
  {
    if HasDateShape(s) && ValidDate(Fields(s)) then
      FieldsFormat(s);
      Some(Fields(s))
    else None
  }

  /** Reading back a formatted date gives the date. */
  lemma ParseFormat(d: Date)
    requires Formattable(d)
    ensures Parse(Format(d)) == Some(d)
  {
    var s := Format(d);
    var y, m, dd := Padded(d.year, 4), Padded(d.month, 2), Padded(d.day, 2);
    assert s[..4] == y && s[5..7] == m && s[8..] == dd;
    assert HasDateShape(s);
    DigitsValuePadded(d.year, 4);
    DigitsValuePadded(d.month, 2);
    DigitsValuePadded(d.day, 2);
  }
}
