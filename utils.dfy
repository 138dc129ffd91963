/**
  toYYYYMMDD: a Date object or a date text formatted as year-MM-DD from
  its local fields, with the two error cases of its input check.
*/
module Utils {
  import opened Wrappers
  import opened Text
  import opened Calendar

  /**
    What toYYYYMMDD is called with: a Date object (None for an Invalid
    Date), a text, or a value of any other type.
  */
  datatype DateArgument = DateObject(date: Option<LocalDate>) | DateString(text: string) | OtherValue

  const NotStringOrDate: string := "Input must be a string or Date object"

  /** The message thrown for a text that new Date reads as an Invalid Date. */
  function CannotParse(input: string): string {
    "Cannot parse date from string: \"" + input + "\""
  }

  /** The text printed for NaN, as String(NaN) and `${NaN}` write it. */
  const NaNText: string := "NaN"

  /**
    `${year}-${MM}-${DD}` for a Date: String(getFullYear()), then
    getMonth() + 1 and getDate() padded to two digits with '0'. Every
    field of an Invalid Date is NaN, and "NaN".padStart(2, '0') is "NaN".
  */
  function DateText(date: Option<LocalDate>): (s: string)
  {
    match date
    case None => NaNText + "-" + NaNText + "-" + NaNText
    case Some(d) => IntToString(d.year) + "-" + ZeroPad(d.month + 1, 2) + "-" + ZeroPad(d.day, 2)
  }

  /**
    toYYYYMMDD(input): a Date is formatted as it is, Invalid or not; a text
    is read with new Date and throws when that gives an Invalid Date; any
    other value throws.
  */
  function ToYYYYMMDD(input: DateArgument, cal: LocalCalendar): (r: Result<string>)
    ensures input.OtherValue? ==> r == Throws(NotStringOrDate)
    ensures input.DateObject? ==> r == Ok(DateText(input.date))
    ensures input.DateString? ==> (r.Throws? <==> cal(input.text).None?)
    ensures input.DateString? && r.Throws? ==> r.message == CannotParse(input.text)
    ensures input.DateString? && r.Ok? ==> r == Ok(DateText(cal(input.text)))
  {
    match input
    case DateObject(date) => Ok(DateText(date))
    case DateString(text) =>
      var parsed := cal(text);
      if parsed.None? then Throws(CannotParse(text)) else Ok(DateText(parsed))
    case OtherValue => Throws(NotStringOrDate)
  }

  /** An Invalid Date formats as NaN in every field rather than throwing. */
  lemma InvalidDateText(cal: LocalCalendar)
    ensures ToYYYYMMDD(DateObject(None), cal) == Ok("NaN-NaN-NaN")
  {
    assert DateText(None) == "NaN-NaN-NaN";
  }

  /** A text and the Date it parses to give the same result. */
  lemma StringMatchesDate(text: string, cal: LocalCalendar)
    requires cal(text).Some?
    ensures ToYYYYMMDD(DateString(text), cal) == ToYYYYMMDD(DateObject(cal(text)), cal)
  {
  }

  /**
    For a Date of a year from 0 on, the text reads back field by field:
    the digits before "-MM-DD" are the year, MM is the month counted from
    1 and DD the day, each exactly two digits.
  */
  lemma DateTextFields(d: LocalDate)
    requires d.year >= 0
    ensures var s := DateText(Some(d));
      && |s| >= 7 && s[|s| - 6] == '-' && s[|s| - 3] == '-'
      && AllDigits(s[..|s| - 6]) && AllDigits(s[|s| - 5..|s| - 3]) && AllDigits(s[|s| - 2..])
      && DecimalValue(s[..|s| - 6]) == d.year
      && DecimalValue(s[|s| - 5..|s| - 3]) == d.month + 1
      && DecimalValue(s[|s| - 2..]) == d.day
  {
    var y, mm, dd := NatToString(d.year), ZeroPad(d.month + 1, 2), ZeroPad(d.day, 2);
    var s := DateText(Some(d));
    assert IntToString(d.year) == y;
    assert Pow10(2) == 100;
    assert |mm| == 2 && |dd| == 2;
    assert s == y + "-" + mm + "-" + dd;
    assert s[..|s| - 6] == y;
    assert s[|s| - 5..|s| - 3] == mm;
    assert s[|s| - 2..] == dd;
    DecimalRoundTrip(d.year);
    ZeroPadValue(d.month + 1, 2);
    ZeroPadValue(d.day, 2);
  }

  /** The pattern ^\d{4}-\d{2}-\d{2}$. */
  predicate IsIsoDateShape(s: string) {
    |s| == 10 && s[4] == '-' && s[7] == '-'
    && AllDigits(s[..4]) && AllDigits(s[5..7]) && AllDigits(s[8..])
  }

  /** For a year of four digits the text has the shape ^\d{4}-\d{2}-\d{2}$. */
  lemma FourDigitYearShape(d: LocalDate)
    requires 1000 <= d.year <= 9999
    ensures IsIsoDateShape(DateText(Some(d)))
  {
    assert Pow10(3) == 1000 && Pow10(4) == 10000;
    NatToStringLength(d.year, 4);
    DateTextFields(d);
  }

  /** A number from 10^(k-1) below 10^k has exactly k decimal digits. */
  lemma {:induction false} NatToStringLength(n: nat, k: nat)
    requires 1 <= k && Pow10(k - 1) <= n < Pow10(k)
    ensures |NatToString(n)| == k
    decreases k
  {
    PowGrows(k - 1);
    if n >= 10 {
      assert Pow10(1) == 10;
      assert k >= 2;
      NatToStringLength(n / 10, k - 1);
    }
  }

  /** 10^k is at least 10 from k = 1 on. */
  lemma {:induction false} PowGrows(k: nat)
    ensures k >= 1 ==> Pow10(k) >= 10
    decreases k
  {
    if k > 1 {
      PowGrows(k - 1);
    }
  }

  /** Single-digit months and days are written with a leading '0'. */
  lemma SingleDigitsPadded(d: LocalDate)
    requires 1000 <= d.year <= 9999
    ensures var s := DateText(Some(d));
      && |s| == 10
      && (d.month + 1 < 10 ==> s[5] == '0' && s[6] == DigitChar(d.month + 1))
      && (d.day < 10 ==> s[8] == '0' && s[9] == DigitChar(d.day))
  {
    assert Pow10(3) == 1000 && Pow10(4) == 10000;
    NatToStringLength(d.year, 4);
    var s := DateText(Some(d));
    var mm, dd := ZeroPad(d.month + 1, 2), ZeroPad(d.day, 2);
    assert IntToString(d.year) == NatToString(d.year);
    assert s == NatToString(d.year) + "-" + mm + "-" + dd;
    assert |mm| == 2 && |dd| == 2;
    assert s[5] == mm[0] && s[6] == mm[1] && s[8] == dd[0] && s[9] == dd[1];
    if d.month + 1 < 10 {
      assert mm == ZeroPad(0, 1) + [DigitChar(d.month + 1)];
    }
    if d.day < 10 {
      assert dd == ZeroPad(0, 1) + [DigitChar(d.day)];
    }
  }
}
