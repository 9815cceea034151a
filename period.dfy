/**
 * `format_period`: the human-readable caption of a periodicity given in
 * months. A whole number of years is written in years with the Russian
 * plural form the code picks for 1, for 2 to 4 and for every other count;
 * anything else is written in months.
 */
module Period {
  import opened Common
  import opened Text

  const MonthUnit: string := " мес."
  const YearOne: string := " год"
  const YearFew: string := " года"
  const YearMany: string := " лет"

  /** A string whose last character differs from the suffix's last character does not end with it. */
  lemma LastCharDiffers(s: string, suffix: string)
    requires |s| > 0 && |suffix| > 0 && s[|s| - 1] != suffix[|suffix| - 1]
    ensures !EndsWith(s, suffix)
  {
    if |suffix| <= |s| {
      assert s[|s| - |suffix|..][|suffix| - 1] == s[|s| - 1];
    }
  }

  /** The four unit words a caption can end with. */
  datatype Unit = Months | One | Few | Many

  function Word(u: Unit): string
  {
    match u
    case Months => MonthUnit
    case One => YearOne
    case Few => YearFew
    case Many => YearMany
  }

  /**
   * The four unit words end in four different letters, so a caption ends
   * with exactly the unit it was built with.
   */
  lemma CaptionUnit(number: string, u: Unit)
    ensures EndsWith(number + Word(u), MonthUnit) <==> u == Months
    ensures EndsWith(number + Word(u), YearOne) <==> u == One
    ensures EndsWith(number + Word(u), YearFew) <==> u == Few
    ensures EndsWith(number + Word(u), YearMany) <==> u == Many
  {
    var unit := Word(u);
    var caption := number + unit;
    assert caption[|caption| - |unit|..] == unit;
    assert caption[|caption| - 1] == unit[|unit| - 1];
    if u != Months { LastCharDiffers(caption, MonthUnit); }
    if u != One { LastCharDiffers(caption, YearOne); }
    if u != Few { LastCharDiffers(caption, YearFew); }
    if u != Many { LastCharDiffers(caption, YearMany); }
  }

  /**
   * The caption is the count, written as `str` writes it, followed by a unit
   * word: the count is in years for a whole number of years and in months
   * otherwise, and the unit word is the one the count calls for.
   *
   * Python's `months % 12` and `months // 12` round toward minus infinity;
   * for the positive divisor 12 they agree with Dafny's `%` and `/`.
   */
  function FormatPeriod(months: int): (caption: string)
    ensures exists u :: caption == IntToString(if months % 12 == 0 then months / 12 else months) + Word(u)
    ensures EndsWith(caption, MonthUnit) <==> months % 12 != 0
    ensures EndsWith(caption, YearOne) <==> months == 12
    ensures EndsWith(caption, YearFew) <==> months % 12 == 0 && 24 <= months <= 48
    ensures EndsWith(caption, YearMany) <==> months % 12 == 0 && !(12 <= months <= 48)
  {
    if months % 12 == 0 then
      var years := months / 12;
      assert months == 12 * years;
      if years == 1 then
        assert months == 12;
        assert IntToString(years) == "1";
        CaptionUnit("1", One);
        "1" + Word(One)
      else if 2 <= years <= 4 then
        assert 24 <= months <= 48;
        CaptionUnit(IntToString(years), Few);
        IntToString(years) + Word(Few)
      else
        assert !(12 <= months <= 48);
        CaptionUnit(IntToString(years), Many);
        IntToString(years) + Word(Many)
    else
      CaptionUnit(IntToString(months), Months);
      IntToString(months) + Word(Months)
  }

  /** A caption starts with a zero digit only for the zero period: counts are never zero-padded. */
  lemma FormatPeriodUnpadded(months: int)
    ensures |FormatPeriod(months)| > 0
    ensures FormatPeriod(months)[0] == '0' <==> months == 0
  {
    var n := if months % 12 == 0 then months / 12 else months;
    var u :| FormatPeriod(months) == IntToString(n) + Word(u);
    var text := IntToString(n);
    assert FormatPeriod(months)[0] == text[0];
    if text[0] == '0' {
      assert text == "0";
      IntToStringRoundTrip(n);
      assert ParseInt("0") == Some(0);
    }
    if months == 0 {
      assert n == 0;
      assert IntToString(0) == "0";
    }
  }

  /** Reads a caption back into months; None for text that is not a caption. */
  function ReadPeriod(caption: string): Option<int>
  {
    if EndsWith(caption, MonthUnit) then
      ParseInt(caption[..|caption| - |MonthUnit|])
    else
      var n :=
        if EndsWith(caption, YearFew) then ParseInt(caption[..|caption| - |YearFew|])
        else if EndsWith(caption, YearOne) then ParseInt(caption[..|caption| - |YearOne|])
        else if EndsWith(caption, YearMany) then ParseInt(caption[..|caption| - |YearMany|])
        else None;
      match n
      case Some(years) => Some(12 * years)
      case None => None
  }

  /** Cutting the unit off a rendered number leaves the number's text. */
  lemma CutUnit(n: int, unit: string)
    ensures var caption := IntToString(n) + unit;
            |unit| <= |caption| && caption[..|caption| - |unit|] == IntToString(n)
  {
    var caption := IntToString(n) + unit;
    assert caption[..|caption| - |unit|] == IntToString(n);
  }

  /** Reading a caption built from a rendered number and a unit gives months, or years in months. */
  lemma ReadCaption(n: int, u: Unit)
    ensures ReadPeriod(IntToString(n) + Word(u)) == if u == Months then Some(n) else Some(12 * n)
  {
    CaptionUnit(IntToString(n), u);
    CutUnit(n, Word(u));
    IntToStringRoundTrip(n);
  }

  /** A caption determines the periodicity it was made from. */
  lemma FormatPeriodRoundTrip(months: int)
    ensures ReadPeriod(FormatPeriod(months)) == Some(months)
  {
    if months % 12 == 0 {
      var years := months / 12;
      assert months == 12 * years;
      if years == 1 {
        assert IntToString(1) == "1";
        assert FormatPeriod(months) == IntToString(1) + Word(One);
        ReadCaption(1, One);
      } else if 2 <= years <= 4 {
        ReadCaption(years, Few);
      } else {
        ReadCaption(years, Many);
      }
    } else {
      ReadCaption(months, Months);
    }
  }

  /** Two periodicities share a caption only when they are equal. */
  lemma FormatPeriodInjective(m: int, n: int)
    ensures FormatPeriod(m) == FormatPeriod(n) ==> m == n
  {
    FormatPeriodRoundTrip(m);
    FormatPeriodRoundTrip(n);
  }
}
