/** Worked inputs for `tryParse` and the date-field value (public/index.js:84-138). Each
    assumes that the engine's own parser rejects the input, so that the two patterns
    decide; NativeFirst covers the other case. */
module Examples {
  import opened Wrappers
  import opened Text
  import opened Calendar
  import opened MonthNames
  import opened Patterns
  import opened Normalizer

  const DayFirst: string := "21/12/2025, 14:00"
  const RolledOver: string := "31/02/2025, 10:00"
  const ShortYear: string := "5-3-25 09:30"
  const LongForm: string := "7 Jan 2025 at 10:00"
  const FullMonth: string := "21 December 2025, 14:00"
  const ThreeDigitYear: string := "21/12/202, 14:00"
  const Prose: string := "not a date"
  const FieldForm: string := "2025-12-21T14:00"

  /** One, two or four digits whose characters are known have the value they spell. */
  lemma OneDigitAt(s: string, i: nat, a: char)
    requires i + 1 <= |s| && s[i] == a && IsDigit(a)
    ensures AllIn(s, i, i + 1, IsDigit) && Number(s, i, i + 1) == DigitValue(a)
  {
    NumberStep(s, i, i);
  }

  lemma TwoDigitsAt(s: string, i: nat, a: char, b: char)
    requires i + 2 <= |s| && s[i] == a && s[i + 1] == b && IsDigit(a) && IsDigit(b)
    ensures AllIn(s, i, i + 2, IsDigit) && Number(s, i, i + 2) == 10 * DigitValue(a) + DigitValue(b)
  {
    NumberOfTwo(s, i);
  }

  lemma ThreeDigitsAt(s: string, i: nat, a: char, b: char, c: char)
    requires i + 3 <= |s| && s[i] == a && s[i + 1] == b && s[i + 2] == c
    requires IsDigit(a) && IsDigit(b) && IsDigit(c)
    ensures AllIn(s, i, i + 3, IsDigit)
    ensures Number(s, i, i + 3) == 100 * DigitValue(a) + 10 * DigitValue(b) + DigitValue(c)
  {
    NumberStep(s, i, i + 2);
    NumberOfTwo(s, i);
  }

  lemma FourDigitsAt(s: string, i: nat, a: char, b: char, c: char, d: char)
    requires i + 4 <= |s| && s[i] == a && s[i + 1] == b && s[i + 2] == c && s[i + 3] == d
    requires IsDigit(a) && IsDigit(b) && IsDigit(c) && IsDigit(d)
    ensures AllIn(s, i, i + 4, IsDigit)
    ensures Number(s, i, i + 4) == 1000 * DigitValue(a) + 100 * DigitValue(b) + 10 * DigitValue(c) + DigitValue(d)
  {
    NumberOfFour(s, i);
  }

  /** A numeric date is read day first and its month counted from one: the field shows
      21 December 2025. */
  lemma DayFirstExample(native: NativeParser)
    requires native(DayFirst).InvalidDate?
    ensures TryParse(native, DayFirst) == Some(LocalDate(DateTime(2025, 11, 21, 14, 0)))
    ensures Normalize(native, Some(DayFirst)) == "2025-12-21T14:00"
  {
    var m := NumericSpan(0, 2, 5, 10, 12, 14);
    DayFirstCaptures(m);
    NoLetterNoLongForm(DayFirst);
    NumericInRange(native, DayFirst, m);
    DayFirstText(TryParse(native, DayFirst).value.dt);
  }

  lemma DayFirstCaptures(m: NumericSpan)
    requires m == NumericSpan(0, 2, 5, 10, 12, 14)
    ensures NumericMatches(DayFirst, m) && NumericCaptures(DayFirst, m) == NumericFields(21, 12, 2025, 14, 0)
  {
    DayFirstSpan(m);
    DayFirstNumbers(m);
  }

  lemma DayFirstSpan(m: NumericSpan)
    requires m == NumericSpan(0, 2, 5, 10, 12, 14)
    ensures NumericMatches(DayFirst, m)
  {
    assert NumericDateMatches(DayFirst, m);
    assert Run(DayFirst, m.yearEnd, m.hourStart, IsCommaOrSpace);
    assert ClockMatches(DayFirst, m.hourStart, m.hourEnd);
  }

  lemma DayFirstNumbers(m: NumericSpan)
    requires m == NumericSpan(0, 2, 5, 10, 12, 14) && NumericMatches(DayFirst, m)
    ensures NumericCaptures(DayFirst, m) == NumericFields(21, 12, 2025, 14, 0)
  {
    TwoDigitsAt(DayFirst, 0, '2', '1');
    TwoDigitsAt(DayFirst, 3, '1', '2');
    FourDigitsAt(DayFirst, 6, '2', '0', '2', '5');
    TwoDigitsAt(DayFirst, 12, '1', '4');
    TwoDigitsAt(DayFirst, 15, '0', '0');
  }

  lemma DayFirstText(dt: LocalDateTime)
    requires dt == DateTime(2025, 11, 21, 14, 0)
    ensures Format(dt) == "2025-12-21T14:00"
  {
    DayFirstFieldTexts(dt);
  }

  lemma DayFirstFieldTexts(dt: LocalDateTime)
    requires dt == DateTime(2025, 11, 21, 14, 0)
    ensures IntToString(dt.year) == "2025" && Pad(dt.month + 1) == "12" && Pad(dt.day) == "21"
    ensures Pad(dt.hour) == "14" && Pad(dt.minute) == "00"
  {
    YearDigits(dt.year);
    PadDigits(dt.month + 1);
    PadDigits(dt.day);
    PadDigits(dt.hour);
    PadDigits(dt.minute);
  }

  /** 31 February is not refused: `new Date` carries the three surplus days into March. */
  lemma RolledOverExample(native: NativeParser)
    requires native(RolledOver).InvalidDate?
    ensures TryParse(native, RolledOver) == Some(LocalDate(DateTime(2025, 2, 3, 10, 0)))
    ensures Normalize(native, Some(RolledOver)) == "2025-03-03T10:00"
  {
    var m := NumericSpan(0, 2, 5, 10, 12, 14);
    RolledOverCaptures(m);
    NoLetterNoLongForm(RolledOver);
    NumericRollsOver(native, RolledOver, m);
    MarchThird(TryParse(native, RolledOver).value.dt);
    RolledOverText(TryParse(native, RolledOver).value.dt);
  }

  /** The instant of "31 February 2025, 10:00" is 3 March 2025, 10:00. */
  lemma MarchThird(dt: LocalDateTime)
    requires Minutes(dt) == TimeValue(2025, 1, 31, 10, 0)
    ensures dt == DateTime(2025, 2, 3, 10, 0)
  {
    var march: LocalDateTime := DateTime(2025, 2, 3, 10, 0);
    FebruaryRollsIntoMarch(2025, 3);
    DecompositionUnique(dt, march);
  }

  /** Outside leap years, day 28 + d of February is day d of March. */
  lemma FebruaryRollsIntoMarch(y: int, d: int)
    requires !InLeapYear(y)
    ensures MakeDay(y, 1, 28 + d) == MakeDay(y, 2, d)
  {
    assert 1 / 12 == 0 && 1 % 12 == 1 && 2 / 12 == 0 && 2 % 12 == 2;
  }

  lemma RolledOverCaptures(m: NumericSpan)
    requires m == NumericSpan(0, 2, 5, 10, 12, 14)
    ensures NumericMatches(RolledOver, m) && NumericCaptures(RolledOver, m) == NumericFields(31, 2, 2025, 10, 0)
  {
    RolledOverSpan(m);
    RolledOverNumbers(m);
  }

  lemma RolledOverSpan(m: NumericSpan)
    requires m == NumericSpan(0, 2, 5, 10, 12, 14)
    ensures NumericMatches(RolledOver, m)
  {
    assert NumericDateMatches(RolledOver, m);
    assert Run(RolledOver, m.yearEnd, m.hourStart, IsCommaOrSpace);
    assert ClockMatches(RolledOver, m.hourStart, m.hourEnd);
  }

  lemma RolledOverNumbers(m: NumericSpan)
    requires m == NumericSpan(0, 2, 5, 10, 12, 14) && NumericMatches(RolledOver, m)
    ensures NumericCaptures(RolledOver, m) == NumericFields(31, 2, 2025, 10, 0)
  {
    TwoDigitsAt(RolledOver, 0, '3', '1');
    TwoDigitsAt(RolledOver, 3, '0', '2');
    FourDigitsAt(RolledOver, 6, '2', '0', '2', '5');
    TwoDigitsAt(RolledOver, 12, '1', '0');
    TwoDigitsAt(RolledOver, 15, '0', '0');
  }

  lemma RolledOverText(dt: LocalDateTime)
    requires dt == DateTime(2025, 2, 3, 10, 0)
    ensures Format(dt) == "2025-03-03T10:00"
  {
    RolledOverFieldTexts(dt);
  }

  lemma RolledOverFieldTexts(dt: LocalDateTime)
    requires dt == DateTime(2025, 2, 3, 10, 0)
    ensures IntToString(dt.year) == "2025" && Pad(dt.month + 1) == "03" && Pad(dt.day) == "03"
    ensures Pad(dt.hour) == "10" && Pad(dt.minute) == "00"
  {
    YearDigits(dt.year);
    PadDigits(dt.month + 1);
    PadDigits(dt.day);
    PadDigits(dt.hour);
    PadDigits(dt.minute);
  }

  /** Single-digit day and month, dashes, and a two-digit year taken as 20xx. */
  lemma ShortYearExample(native: NativeParser)
    requires native(ShortYear).InvalidDate?
    ensures TryParse(native, ShortYear) == Some(LocalDate(DateTime(2025, 2, 5, 9, 30)))
  {
    var m := NumericSpan(0, 1, 3, 6, 7, 9);
    ShortYearCaptures(m);
    NoLetterNoLongForm(ShortYear);
    NumericInRange(native, ShortYear, m);
  }

  lemma ShortYearCaptures(m: NumericSpan)
    requires m == NumericSpan(0, 1, 3, 6, 7, 9)
    ensures NumericMatches(ShortYear, m) && NumericCaptures(ShortYear, m) == NumericFields(5, 3, 25, 9, 30)
  {
    ShortYearSpan(m);
    ShortYearNumbers(m);
  }

  lemma ShortYearSpan(m: NumericSpan)
    requires m == NumericSpan(0, 1, 3, 6, 7, 9)
    ensures NumericMatches(ShortYear, m)
  {
    assert NumericDateMatches(ShortYear, m);
    assert Run(ShortYear, m.yearEnd, m.hourStart, IsCommaOrSpace);
    assert ClockMatches(ShortYear, m.hourStart, m.hourEnd);
  }

  lemma ShortYearNumbers(m: NumericSpan)
    requires m == NumericSpan(0, 1, 3, 6, 7, 9) && NumericMatches(ShortYear, m)
    ensures NumericCaptures(ShortYear, m) == NumericFields(5, 3, 25, 9, 30)
  {
    OneDigitAt(ShortYear, 0, '5');
    OneDigitAt(ShortYear, 2, '3');
    TwoDigitsAt(ShortYear, 4, '2', '5');
    TwoDigitsAt(ShortYear, 7, '0', '9');
    TwoDigitsAt(ShortYear, 10, '3', '0');
  }

  /** The long form with `at` before the time. */
  lemma LongFormExample(native: NativeParser)
    requires native(LongForm).InvalidDate?
    ensures TryParse(native, LongForm) == Some(LocalDate(DateTime(2025, 0, 7, 10, 0)))
    ensures Normalize(native, Some(LongForm)) == "2025-01-07T10:00"
  {
    var m := LongSpan(0, 1, 2, 5, 6, At(11), 14, 16);
    LongFormCaptures(m);
    assert Lower("Jan"[..3]) == Abbreviations[0];
    LongFormInRange(native, LongForm, m, 0);
    LongFormText(TryParse(native, LongForm).value.dt);
  }

  lemma LongFormText(dt: LocalDateTime)
    requires dt == DateTime(2025, 0, 7, 10, 0)
    ensures Format(dt) == "2025-01-07T10:00"
  {
    LongFormFieldTexts(dt);
  }

  lemma LongFormFieldTexts(dt: LocalDateTime)
    requires dt == DateTime(2025, 0, 7, 10, 0)
    ensures IntToString(dt.year) == "2025" && Pad(dt.month + 1) == "01" && Pad(dt.day) == "07"
    ensures Pad(dt.hour) == "10" && Pad(dt.minute) == "00"
  {
    YearDigits(dt.year);
    PadDigits(dt.month + 1);
    PadDigits(dt.day);
    PadDigits(dt.hour);
    PadDigits(dt.minute);
  }

  lemma LongFormCaptures(m: LongSpan)
    requires m == LongSpan(0, 1, 2, 5, 6, At(11), 14, 16)
    ensures LongFormMatches(LongForm, m)
    ensures var f := LongCaptures(LongForm, m);
            f.day == 7 && f.monthName == "Jan" && f.year == 2025 && f.hour == 10 && f.minute == 0
  {
    LongFormSpan(m);
    NumberStep(LongForm, 0, 0);
    NumberOfFour(LongForm, 6);
    NumberOfTwo(LongForm, 14);
    NumberOfTwo(LongForm, 17);
    assert LongForm[2..5] == "Jan";
  }

  lemma LongFormSpan(m: LongSpan)
    requires m == LongSpan(0, 1, 2, 5, 6, At(11), 14, 16)
    ensures LongFormMatches(LongForm, m)
  {
    assert LongDateMatches(LongForm, m);
    assert SeparatorMatches(LongForm, 10, m.sep, 14);
  }

  /** The long form with a full month name and a comma before the time. */
  lemma FullMonthExample(native: NativeParser)
    requires native(FullMonth).InvalidDate?
    ensures TryParse(native, FullMonth) == Some(LocalDate(DateTime(2025, 11, 21, 14, 0)))
    ensures Normalize(native, Some(FullMonth)) == "2025-12-21T14:00"
  {
    var m := LongSpan(0, 2, 3, 11, 12, Comma, 18, 20);
    FullMonthCaptures(m);
    assert Lower("December"[..3]) == Abbreviations[11];
    LongFormInRange(native, FullMonth, m, 11);
    DayFirstText(TryParse(native, FullMonth).value.dt);
  }

  lemma FullMonthCaptures(m: LongSpan)
    requires m == LongSpan(0, 2, 3, 11, 12, Comma, 18, 20)
    ensures LongFormMatches(FullMonth, m)
    ensures var f := LongCaptures(FullMonth, m);
            f.day == 21 && f.monthName == "December" && f.year == 2025 && f.hour == 14 && f.minute == 0
  {
    FullMonthSpan(m);
    TwoDigitsAt(FullMonth, 0, '2', '1');
    FourDigitsAt(FullMonth, 12, '2', '0', '2', '5');
    TwoDigitsAt(FullMonth, 18, '1', '4');
    TwoDigitsAt(FullMonth, 21, '0', '0');
    assert FullMonth[3..11] == "December";
  }

  lemma FullMonthSpan(m: LongSpan)
    requires m == LongSpan(0, 2, 3, 11, 12, Comma, 18, 20)
    ensures LongFormMatches(FullMonth, m)
  {
    assert LongDateMatches(FullMonth, m);
    assert SeparatorMatches(FullMonth, 16, m.sep, 18);
  }

  /** A three-digit year is used as it stands. The written value `202-12-21T14:00` is not a
      valid local date and time string, so the input empties it. */
  lemma ThreeDigitYearExample(native: NativeParser)
    requires native(ThreeDigitYear).InvalidDate?
    ensures TryParse(native, ThreeDigitYear) == Some(LocalDate(DateTime(202, 11, 21, 14, 0)))
    ensures DateField(native, Some(ThreeDigitYear)) == ""
  {
    var m := NumericSpan(0, 2, 5, 9, 11, 13);
    ThreeDigitYearCaptures(m);
    NoLetterNoLongForm(ThreeDigitYear);
    NumericInRange(native, ThreeDigitYear, m);
    DateFieldShown(native, Some(ThreeDigitYear));
  }

  lemma ThreeDigitYearCaptures(m: NumericSpan)
    requires m == NumericSpan(0, 2, 5, 9, 11, 13)
    ensures NumericMatches(ThreeDigitYear, m) && NumericCaptures(ThreeDigitYear, m) == NumericFields(21, 12, 202, 14, 0)
  {
    ThreeDigitYearSpan(m);
    ThreeDigitYearNumbers(m);
  }

  lemma ThreeDigitYearSpan(m: NumericSpan)
    requires m == NumericSpan(0, 2, 5, 9, 11, 13)
    ensures NumericMatches(ThreeDigitYear, m)
  {
    assert NumericDateMatches(ThreeDigitYear, m);
    assert Run(ThreeDigitYear, m.yearEnd, m.hourStart, IsCommaOrSpace);
    assert ClockMatches(ThreeDigitYear, m.hourStart, m.hourEnd);
  }

  lemma ThreeDigitYearNumbers(m: NumericSpan)
    requires m == NumericSpan(0, 2, 5, 9, 11, 13) && NumericMatches(ThreeDigitYear, m)
    ensures NumericCaptures(ThreeDigitYear, m) == NumericFields(21, 12, 202, 14, 0)
  {
    TwoDigitsAt(ThreeDigitYear, 0, '2', '1');
    TwoDigitsAt(ThreeDigitYear, 3, '1', '2');
    ThreeDigitsAt(ThreeDigitYear, 6, '2', '0', '2');
    TwoDigitsAt(ThreeDigitYear, 11, '1', '4');
    TwoDigitsAt(ThreeDigitYear, 14, '0', '0');
  }

  /** Text without a digit is neither pattern's; the field is left empty. */
  lemma ProseExample(native: NativeParser)
    requires native(Prose).InvalidDate?
    ensures TryParse(native, Prose).None?
    ensures Normalize(native, Some(Prose)) == ""
  {
    NoDigitNoMatch(Prose);
  }

  /** A timestamp stored in the field's own format comes back unchanged, for an engine
      that reads that format as local time. */
  lemma FieldFormExample(native: NativeParser, s: string, dt: LocalDateTime)
    requires ReadsLocalInput(native)
    requires s == FieldForm && dt == DateTime(2025, 11, 21, 14, 0)
    ensures ParseLocalInput(s) == Some(dt)
    ensures Normalize(native, Some(s)) == s && DateField(native, Some(s)) == s
  {
    DayFirstText(dt);
    FormatRoundTrip(dt);
    NormalizePassesThrough(native, Format(dt), dt);
  }
}
