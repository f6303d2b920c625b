/**
 * `formatDate`: the zero-padded `YYYY-MM-DD` rendering of a date, the form in which dates
 * are stored in events, compared in exception lists and embedded in virtual ids.
 * `Parse` reads that form back; the round trips below show the rendering loses nothing.
 */
module DateText {
  import opened Wrappers
  import opened Calendar

  predicate IsDigit(c: char) {
    '0' <= c <= '9'
  }

  predicate AllDigits(s: string) {
    forall i :: 0 <= i < |s| ==> IsDigit(s[i])
  }

  function DigitChar(n: int): (c: char)
    requires 0 <= n < 10
  {
    (('0' as int) + n) as char
  }

  function DigitValue(c: char): int {
    c as int - '0' as int
  }

  function Pow10(w: nat): (p: nat)
    ensures p >= 1
  {
    if w == 0 then 1 else 10 * Pow10(w - 1)
  }

  /** Decimal digits of `n`, left-padded with zeros to at least `width` characters. */
  function Pad(n: nat, width: nat): string
    decreases n + width
  {
    if n < 10 && width <= 1 then [DigitChar(n)]
    else Pad(n / 10, if width == 0 then 0 else width - 1) + [DigitChar(n % 10)]
  }

  /** The number a string of decimal digits denotes. */
  function Num(s: string): int {
    if s == [] then 0 else Num(s[..|s| - 1]) * 10 + DigitValue(s[|s| - 1])
  }

  function YearText(y: int): string {
    if y < 0 then "-" + Pad(-y, 4) else Pad(y, 4)
  }

  /** `formatDate(date)`. */
  function Format(d: Date): string
    requires IsCalendarDate(d)
  {
    YearText(d.year) + "-" + Pad(d.month, 2) + "-" + Pad(d.day, 2)
  }

  /** Reads a canonical `YYYY-MM-DD` string; anything else, or a day the month lacks, is None. */
  function Parse(s: string): Option<Date> {
    if |s| == 10 && s[4] == '-' && s[7] == '-'
       && AllDigits(s[..4]) && AllDigits(s[5..7]) && AllDigits(s[8..])
    then
      var d := Date(Num(s[..4]), Num(s[5..7]), Num(s[8..]));
      if IsCalendarDate(d) then Some(d) else None
    else None
  }

  lemma {:induction false} PadDigits(n: nat, width: nat)
    ensures |Pad(n, width)| >= 1 && AllDigits(Pad(n, width))
    decreases n + width
  {
    if !(n < 10 && width <= 1) {
      PadDigits(n / 10, if width == 0 then 0 else width - 1);
    }
  }

  /** A number below 10^width renders in exactly `width` digits and reads back as itself. */
  lemma {:induction false} PadExact(n: nat, width: nat)
    requires 1 <= width && n < Pow10(width)
    ensures |Pad(n, width)| == width && AllDigits(Pad(n, width)) && Num(Pad(n, width)) == n
  {
    if width > 1 {
      PadExact(n / 10, width - 1);
      var p := Pad(n / 10, width - 1);
      assert Pad(n, width) == p + [DigitChar(n % 10)];
      assert (p + [DigitChar(n % 10)])[..|p|] == p;
    }
  }

  /** A string of digits is the padded rendering of the number it denotes. */
  lemma {:induction false} NumPad(s: string)
    requires 1 <= |s| && AllDigits(s)
    ensures 0 <= Num(s) < Pow10(|s|) && Pad(Num(s), |s|) == s
    decreases |s|
  {
    var init := s[..|s| - 1];
    if |s| == 1 {
      assert init == [];
    } else {
      NumPad(init);
      assert s == init + [s[|s| - 1]];
    }
  }

  /** `Parse` inverts `formatDate` for four-digit years. */
  lemma FormatParseRoundTrip(d: Date)
    requires IsCalendarDate(d) && 0 <= d.year <= 9999
    ensures Parse(Format(d)) == Some(d)
  {
    PadExact(d.year, 4);
    PadExact(d.month, 2);
    PadExact(d.day, 2);
    var s := Format(d);
    assert s[..4] == Pad(d.year, 4);
    assert s[5..7] == Pad(d.month, 2);
    assert s[8..] == Pad(d.day, 2);
  }

  /** Every string `Parse` accepts is the rendering of the date it yields. */
  lemma ParseFormatRoundTrip(s: string)
    requires Parse(s).Some?
    ensures Format(Parse(s).value) == s
  {
    NumPad(s[..4]);
    NumPad(s[5..7]);
    NumPad(s[8..]);
    assert s == s[..4] + "-" + s[5..7] + "-" + s[8..];
  }

  /** Distinct dates render distinctly, so comparing rendered dates compares dates. */
  lemma FormatInjective(a: Date, b: Date)
    requires IsCalendarDate(a) && 0 <= a.year <= 9999
    requires IsCalendarDate(b) && 0 <= b.year <= 9999
    ensures Format(a) == Format(b) <==> a == b
  {
    FormatParseRoundTrip(a);
    FormatParseRoundTrip(b);
  }

  /** A rendered date holds only digits and dashes. */
  lemma FormatAlphabet(d: Date)
    requires IsCalendarDate(d)
    ensures forall i :: 0 <= i < |Format(d)| ==> IsDigit(Format(d)[i]) || Format(d)[i] == '-'
  {
    PadDigits(if d.year < 0 then -d.year else d.year, 4);
    PadDigits(d.month, 2);
    PadDigits(d.day, 2);
  }
}
