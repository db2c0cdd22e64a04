/** The timestamp normaliser of the sighting edit form (public/index.js:84-138): the
    stored `timeStamp` of a sighting is read by `tryParse`, which tries three strategies
    in order, and the Date it yields is written back as `YYYY-MM-DDTHH:MM`, the value a
    `datetime-local` input holds (the field's type is assumed from that format; the
    markup is not part of this model). An unreadable or missing timestamp leaves the field
    empty. */
module Normalizer {
  import opened Wrappers
  import opened Text
  import opened Calendar
  import opened MonthNames
  import opened Patterns

  /** `new Date(input)` on a string: the engine's own date-string parser (ISO 8601 and
      whatever else the browser accepts). The model takes it as a parameter. */
  type NativeParser = string -> JsDate

  /** Strategy 1 (public/index.js:92-93): the native reading, kept when it is not Invalid Date. */
  function NativeStrategy(native: NativeParser, s: string): Option<JsDate> {
    if native(s).LocalDate? then Some(native(s)) else None
  }

  /** Strategy 2 (public/index.js:95-112): the long form "21 December 2025, 14:00" or
      "7 Jan 2025 at 10:00". It yields nothing when the expression does not match or when
      the month word does not resolve; then the next strategy is tried. */
  function LongFormStrategy(s: string): (r: Option<JsDate>)
    ensures r.Some? <==> (MatchLongForm(s).Some?
                          && MonthIndex(LongCaptures(s, MatchLongForm(s).value).monthName).Some?)
    ensures r.Some? ==> r.value.LocalDate?
  {
    match MatchLongForm(s)
    case None => None
    case Some(m) =>
      var f := LongCaptures(s, m);
      match MonthIndex(f.monthName)
      case None => None
      case Some(i) =>
        MonthIndexByPrefix(f.monthName, i);
        NewDateNeverInvalid(f.year, i, f.day, f.hour, f.minute);
        Some(NewDate(f.year, i, f.day, f.hour, f.minute))
  }

  /** The year a numeric date is built with: two digits mean 20xx (public/index.js:122). */
  function NumericYear(y: nat): nat {
    if y < 100 then 2000 + y else y
  }

  /** Strategy 3 (public/index.js:114-123): `dd/mm/yyyy HH:MM` or `dd-mm-yyyy HH:MM`, day
      first, the month passed to the Date constructor as a 0-based index. It always yields
      a date once the expression matches: out-of-range fields roll over. */
  function NumericStrategy(s: string): (r: Option<JsDate>)
    ensures r.Some? <==> MatchNumeric(s).Some?
    ensures r.Some? ==> r.value.LocalDate?
  {
    match MatchNumeric(s)
    case None => None
    case Some(m) =>
      var f := NumericCaptures(s, m);
      NewDateNeverInvalid(NumericYear(f.year), f.month - 1, f.day, f.hour, f.minute);
      Some(NewDate(NumericYear(f.year), f.month - 1, f.day, f.hour, f.minute))
  }

  /** `tryParse(input)` (public/index.js:89-126): null for an empty input, else the result
      of the first strategy that succeeds, else null. */
  function TryParse(native: NativeParser, input: string): (r: Option<JsDate>)
    ensures input == "" ==> r.None?
    ensures r.Some? ==> r.value.LocalDate?
    ensures r.None? <==> (input == "" || (native(input).InvalidDate? && LongFormStrategy(input).None?
                                          && MatchNumeric(input).None?))
  {
    if input == "" then None
    else if NativeStrategy(native, input).Some? then NativeStrategy(native, input)
    else if LongFormStrategy(input).Some? then LongFormStrategy(input)
    else NumericStrategy(input)
  }

  /** The value written into the date field (public/index.js:84-138): empty when there is
      no timestamp or it cannot be read, otherwise the parsed date in the input's format. */
  function Normalize(native: NativeParser, timeStamp: Option<string>): (iso: string)
    ensures iso != "" <==> timeStamp.Some? && TryParse(native, timeStamp.value).Some?
    ensures iso != "" ==> iso == Format(TryParse(native, timeStamp.value).value.dt)
  {
    if timeStamp.None? || timeStamp.value == "" then ""
    else
      match TryParse(native, timeStamp.value)
      case Some(LocalDate(dt)) => Format(dt)
      case _ => ""
  }

  /** `${getFullYear()}-${pad(getMonth() + 1)}-${pad(getDate())}T${pad(getHours())}:${pad(getMinutes())}`
      (public/index.js:130-135). */
  function Format(dt: LocalDateTime): (r: string)
    ensures |r| == |IntToString(dt.year)| + 12
  {
    Join(IntToString(dt.year), Pad(dt.month + 1), Pad(dt.day), Pad(dt.hour), Pad(dt.minute))
  }

  /** The template literal of the format, with its five fields already converted. */
  function Join(y: string, mo: string, d: string, h: string, mi: string): string {
    y + "-" + mo + "-" + d + "T" + h + ":" + mi
  }

  // ---------------------------------------------------------------------------
  // The reading side of the date field.

  /** A valid local date and time string (section 2.3.5.5 of the HTML standard) in the form
      the formatter writes, `YYYY-MM-DDTHH:MM` with four or more year digits, read into the
      fields the Date getters report. The standard asks for a year above 0 and a day that
      exists in its month. */
  function ParseLocalInput(s: string): (r: Option<LocalDateTime>)
    ensures r.Some? ==> LocalShape(s)
    ensures r.Some? ==> r.value.year >= 1
  {
    if LocalShape(s) then
      var k := |s| - 12;
      var dt := DateTime(Number(s, 0, k), Number(s, k + 1, k + 3) - 1, Number(s, k + 4, k + 6),
                         Number(s, k + 7, k + 9), Number(s, k + 10, k + 12));
      if Valid(dt) && dt.year >= 1 then Some(dt) else None
    else None
  }

  /** The layout `Y-MM-DDTHH:MM`, where Y is four or more digits. */
  predicate LocalShape(s: string) {
    |s| >= 16 &&
    var k := |s| - 12;
    && AllIn(s, 0, k, IsDigit) && s[k] == '-' && AllIn(s, k + 1, k + 3, IsDigit) && s[k + 3] == '-'
    && AllIn(s, k + 4, k + 6, IsDigit) && s[k + 6] == 'T' && AllIn(s, k + 7, k + 9, IsDigit)
    && s[k + 9] == ':' && AllIn(s, k + 10, k + 12, IsDigit)
  }

  /** The value the date field, taken to be a `datetime-local` input, holds once `v` is
      assigned to it: the value sanitization algorithm of the HTML standard keeps a valid
      local date and time string and replaces anything else by the empty string. */
  function FieldValue(v: string): (r: string)
    ensures r == v || r == ""
  {
    if ParseLocalInput(v).Some? then v else ""
  }

  /** What the date field shows once the form has opened: `datetime.value = iso`
      (public/index.js:137) passed through the input's sanitization. */
  function DateField(native: NativeParser, timeStamp: Option<string>): string {
    FieldValue(Normalize(native, timeStamp))
  }

  /** The digits `f` placed at s[i..i + |f|] are a run of digits read back as `f`'s value. */
  lemma FieldAt(s: string, i: nat, f: string)
    requires i + |f| <= |s| && s[i..i + |f|] == f && AllDigits(f)
    ensures AllIn(s, i, i + |f|, IsDigit) && Number(s, i, i + |f|) == DecimalValue(f)
  {
    forall k | i <= k < i + |f| ensures IsDigit(s[k]) {
      assert s[k] == f[k - i];
    }
  }

  /** The five fields of the form's format are digit strings: four or more year digits,
      then two digits for each other field. */
  predicate DigitFields(y: string, mo: string, d: string, h: string, mi: string) {
    && |y| >= 4 && |mo| == 2 && |d| == 2 && |h| == 2 && |mi| == 2
    && AllDigits(y) && AllDigits(mo) && AllDigits(d) && AllDigits(h) && AllDigits(mi)
  }

  /** Where the five fields of the form's format lie. */
  lemma Layout(y: string, mo: string, d: string, h: string, mi: string)
    requires |mo| == 2 && |d| == 2 && |h| == 2 && |mi| == 2
    ensures var s, k := Join(y, mo, d, h, mi), |y|;
            && |s| == k + 12 && s[k] == '-' && s[k + 3] == '-' && s[k + 6] == 'T' && s[k + 9] == ':'
            && s[..k] == y && s[k + 1..k + 3] == mo && s[k + 4..k + 6] == d
            && s[k + 7..k + 9] == h && s[k + 10..k + 12] == mi
  {
  }

  /** Digit fields of the right widths make the form's format well formed, and each is
      read back as its own value. */
  lemma LayoutFields(y: string, mo: string, d: string, h: string, mi: string)
    requires DigitFields(y, mo, d, h, mi)
    ensures var s, k := Join(y, mo, d, h, mi), |y|;
            && |s| == k + 12 && LocalShape(s)
            && Number(s, 0, k) == DecimalValue(y) && Number(s, k + 1, k + 3) == DecimalValue(mo)
            && Number(s, k + 4, k + 6) == DecimalValue(d) && Number(s, k + 7, k + 9) == DecimalValue(h)
            && Number(s, k + 10, k + 12) == DecimalValue(mi)
  {
    var s, k := Join(y, mo, d, h, mi), |y|;
    Layout(y, mo, d, h, mi);
    FieldAt(s, 0, y);
    FieldAt(s, k + 1, mo);
    FieldAt(s, k + 4, d);
    FieldAt(s, k + 7, h);
    FieldAt(s, k + 10, mi);
  }

  /** The form's format with digit fields of the right widths is read field by field. */
  lemma ReadLayout(y: string, mo: string, d: string, h: string, mi: string)
    requires DigitFields(y, mo, d, h, mi)
    ensures var dt := DateTime(DecimalValue(y), DecimalValue(mo) - 1, DecimalValue(d),
                               DecimalValue(h), DecimalValue(mi));
            ParseLocalInput(Join(y, mo, d, h, mi)) == if Valid(dt) && dt.year >= 1 then Some(dt) else None
  {
    LayoutFields(y, mo, d, h, mi);
  }

  /** From year 1000 on every field of the format is a digit string of its width holding
      the getter's value (the month one above `getMonth()`). */
  lemma FormatFields(dt: LocalDateTime)
    requires dt.year >= 1000
    ensures var y, mo, d, h, mi := IntToString(dt.year), Pad(dt.month + 1), Pad(dt.day), Pad(dt.hour), Pad(dt.minute);
            && DigitFields(y, mo, d, h, mi)
            && DecimalValue(y) == dt.year && DecimalValue(mo) == dt.month + 1 && DecimalValue(d) == dt.day
            && DecimalValue(h) == dt.hour && DecimalValue(mi) == dt.minute
  {
    FullYearText(dt.year);
    PadTwoDigits(dt.month + 1);
    PadTwoDigits(dt.day);
    PadTwoDigits(dt.hour);
    PadTwoDigits(dt.minute);
  }

  /** From year 1000 on the written value is read back as the same date: formatting loses
      nothing, and up to year 9999 the result has the 16-character shape. */
  lemma FormatRoundTrip(dt: LocalDateTime)
    requires dt.year >= 1000
    ensures dt.year <= 9999 ==> |Format(dt)| == 16
    ensures ParseLocalInput(Format(dt)) == Some(dt)
  {
    if dt.year <= 9999 {
      FullYearText(dt.year);
    }
    FormatReadsBack(dt);
  }

  lemma FormatReadsBack(dt: LocalDateTime)
    requires dt.year >= 1000
    ensures ParseLocalInput(Format(dt)) == Some(dt)
  {
    var y, mo, d, h, mi := IntToString(dt.year), Pad(dt.month + 1), Pad(dt.day), Pad(dt.hour), Pad(dt.minute);
    assert Format(dt) == Join(y, mo, d, h, mi);
    JoinReadsBack(dt, y, mo, d, h, mi);
  }

  lemma JoinReadsBack(dt: LocalDateTime, y: string, mo: string, d: string, h: string, mi: string)
    requires dt.year >= 1000
    requires y == IntToString(dt.year) && mo == Pad(dt.month + 1) && d == Pad(dt.day)
    requires h == Pad(dt.hour) && mi == Pad(dt.minute)
    ensures ParseLocalInput(Join(y, mo, d, h, mi)) == Some(dt)
  {
    FormatFields(dt);
    ReadLayout(y, mo, d, h, mi);
    assert DateTime(DecimalValue(y), DecimalValue(mo) - 1, DecimalValue(d), DecimalValue(h), DecimalValue(mi)) == dt;
  }

  /** A year below 1000 is written with fewer than four digits (or with a sign), which
      is not a valid local date and time string. */
  lemma ShortYearUnreadable(dt: LocalDateTime)
    requires dt.year < 1000
    ensures ParseLocalInput(Format(dt)).None?
  {
    var s := Format(dt);
    ShortYearText(dt.year);
    if |IntToString(dt.year)| > 3 && LocalShape(s) {
      assert s[0] == IntToString(dt.year)[0];
      AllInAt(s, 0, |s| - 12, IsDigit, 0);
    }
  }

  /** The input keeps the written date exactly when its year is 1000 or later. */
  lemma FieldValueOfFormat(dt: LocalDateTime)
    ensures FieldValue(Format(dt)) == if dt.year >= 1000 then Format(dt) else ""
  {
    if dt.year >= 1000 {
      FormatRoundTrip(dt);
    } else {
      ShortYearUnreadable(dt);
    }
  }

  /** A string in the form's format is its five digit fields joined by the separators. */
  lemma SplitLayout(s: string)
    requires LocalShape(s)
    ensures var k := |s| - 12;
            var y, mo, d, h, mi := s[..k], s[k + 1..k + 3], s[k + 4..k + 6], s[k + 7..k + 9], s[k + 10..k + 12];
            DigitFields(y, mo, d, h, mi) && s == Join(y, mo, d, h, mi)
  {
    var k := |s| - 12;
    var y, mo, d, h, mi := s[..k], s[k + 1..k + 3], s[k + 4..k + 6], s[k + 7..k + 9], s[k + 10..k + 12];
    forall i | 0 <= i < |s| && s[i] != '-' && s[i] != 'T' && s[i] != ':' ensures IsDigit(s[i]) {
      if i < k { AllInAt(s, 0, k, IsDigit, i); }
      else if i < k + 3 { AllInAt(s, k + 1, k + 3, IsDigit, i); }
      else if i < k + 6 { AllInAt(s, k + 4, k + 6, IsDigit, i); }
      else if i < k + 9 { AllInAt(s, k + 7, k + 9, IsDigit, i); }
      else { AllInAt(s, k + 10, k + 12, IsDigit, i); }
    }
    assert s == y + s[k..k + 1] + mo + s[k + 3..k + 4] + d + s[k + 6..k + 7] + h + s[k + 9..k + 10] + mi;
  }

  /** The fields a string in the form's format is read into are the values of its digit
      fields, the month one below the written one. */
  lemma ParsedFields(s: string, dt: LocalDateTime)
    requires ParseLocalInput(s) == Some(dt)
    ensures var k := |s| - 12;
            var y, mo, d, h, mi := s[..k], s[k + 1..k + 3], s[k + 4..k + 6], s[k + 7..k + 9], s[k + 10..k + 12];
            && DigitFields(y, mo, d, h, mi) && s == Join(y, mo, d, h, mi)
            && dt.year == DecimalValue(y) && dt.month + 1 == DecimalValue(mo) && dt.day == DecimalValue(d)
            && dt.hour == DecimalValue(h) && dt.minute == DecimalValue(mi)
  {
    SplitLayout(s);
    var k := |s| - 12;
    assert s[0..k] == s[..k];
  }

  /** A four-digit year field starts with `0` exactly when its year is below 1000. */
  lemma LeadingZeroYear(s: string, dt: LocalDateTime)
    requires ParseLocalInput(s) == Some(dt) && |s| == 16
    ensures s[0] != '0' <==> dt.year >= 1000
  {
    ParsedFields(s, dt);
    var y := s[..4];
    assert y[0] == s[0];
    assert Pow10(3) == 1000;
    LeadingDigit(y);
  }

  /** The reverse round trip: a string the input reads as a local date and time is written
      back unchanged exactly when its year field has no superfluous leading zero, which
      for the 16-character form means a year from 1000 on. */
  lemma ParseThenFormat(s: string, dt: LocalDateTime)
    requires ParseLocalInput(s) == Some(dt)
    ensures Format(dt) == s <==> s[0] != '0'
    ensures |s| == 16 ==> (Format(dt) == s <==> dt.year >= 1000)
  {
    var k := |s| - 12;
    var y, mo, d, h, mi := s[..k], s[k + 1..k + 3], s[k + 4..k + 6], s[k + 7..k + 9], s[k + 10..k + 12];
    ParsedFields(s, dt);
    PadTwoDigits(dt.month + 1);
    DecimalInjective(Pad(dt.month + 1), mo);
    PadTwoDigits(dt.day);
    DecimalInjective(Pad(dt.day), d);
    PadTwoDigits(dt.hour);
    DecimalInjective(Pad(dt.hour), h);
    PadTwoDigits(dt.minute);
    DecimalInjective(Pad(dt.minute), mi);
    var w := IntToString(dt.year);
    assert Format(dt) == Join(w, mo, d, h, mi);
    if s[0] != '0' {
      assert y[0] == s[0];
      NatToStringOfDecimal(y);
    } else {
      assert Format(dt)[0] == w[0];
    }
    if |s| == 16 {
      LeadingZeroYear(s, dt);
    }
  }

  /** Once the form has opened, the date field is non-empty exactly when the timestamp is
      read with a year of 1000 or later, and then it shows the written date. */
  lemma DateFieldShown(native: NativeParser, timeStamp: Option<string>)
    ensures DateField(native, timeStamp) != ""
        <==> timeStamp.Some? && TryParse(native, timeStamp.value).Some?
             && TryParse(native, timeStamp.value).value.dt.year >= 1000
    ensures DateField(native, timeStamp) != ""
        ==> DateField(native, timeStamp) == Format(TryParse(native, timeStamp.value).value.dt)
  {
    if timeStamp.Some? && TryParse(native, timeStamp.value).Some? {
      FieldValueOfFormat(TryParse(native, timeStamp.value).value.dt);
    }
  }

  // ---------------------------------------------------------------------------
  // Strategy precedence.

  /** A date the engine can read itself is taken as the engine reads it; the patterns are
      never consulted. */
  lemma NativeFirst(native: NativeParser, s: string)
    requires s != "" && native(s).LocalDate?
    ensures TryParse(native, s) == Some(native(s))
  {
  }

  /** Past the first strategy the native parser no longer matters: two parsers that both
      reject the input give the same result. */
  lemma PatternsIgnoreNative(native1: NativeParser, native2: NativeParser, s: string)
    requires native1(s).InvalidDate? && native2(s).InvalidDate?
    ensures TryParse(native1, s) == TryParse(native2, s)
  {
  }

  /** The long form wins over the numeric form whenever its month resolves, wherever in
      the input either one matches. */
  lemma LongFormBeforeNumeric(native: NativeParser, s: string)
    requires native(s).InvalidDate? && LongFormStrategy(s).Some?
    ensures TryParse(native, s) == LongFormStrategy(s)
  {
    if s == "" {
      NoDigitNoMatch(s);
    }
  }

  /** A long-form match whose month word does not resolve is passed over: the numeric
      expression is tried next, and no later long-form match is looked for. */
  lemma UnknownMonthFallsThrough(native: NativeParser, s: string)
    requires native(s).InvalidDate? && MatchLongForm(s).Some?
    requires MonthIndex(LongCaptures(s, MatchLongForm(s).value).monthName).None?
    ensures TryParse(native, s) == NumericStrategy(s)
  {
    LongFormShape(s, MatchLongForm(s).value);
  }

  /** An input neither the engine nor either expression can read gives null. */
  lemma NothingReadable(native: NativeParser, s: string)
    requires native(s).InvalidDate?
    requires forall m :: !LongFormMatches(s, m)
    requires forall m :: !NumericMatches(s, m)
    ensures TryParse(native, s).None?
  {
    MatchLongFormSpec(s, LongSpan(0, 0, 0, 0, 0, Blank, 0, 0));
    MatchNumericSpec(s, NumericSpan(0, 0, 0, 0, 0, 0));
  }

  // ---------------------------------------------------------------------------
  // What the patterns produce.

  /** Once the engine and the long form have declined, the numeric strategy decides. */
  lemma ReachesNumeric(native: NativeParser, s: string)
    requires native(s).InvalidDate? && LongFormStrategy(s).None?
    ensures TryParse(native, s) == NumericStrategy(s)
  {
    if s == "" {
      NoDigitNoMatch(s);
    }
  }

  /** The long-form strategy builds its date from the leftmost match. */
  lemma LongFormFromMatch(s: string, m: LongSpan)
    requires LongFormMatches(s, m) && forall m' :: LongFormMatches(s, m') ==> m.start <= m'.start
    ensures var f := LongCaptures(s, m);
            LongFormStrategy(s) == match MonthIndex(f.monthName)
                                   case None => None
                                   case Some(i) => Some(NewDate(f.year, i, f.day, f.hour, f.minute))
  {
    MatchLongFormUnique(s, m);
  }

  /** The numeric strategy builds its date from the leftmost match. */
  lemma NumericFromMatch(s: string, m: NumericSpan)
    requires NumericMatches(s, m) && forall m' :: NumericMatches(s, m') ==> m.start <= m'.start
    ensures var f := NumericCaptures(s, m);
            NumericStrategy(s) == Some(NewDate(NumericYear(f.year), f.month - 1, f.day, f.hour, f.minute))
  {
    MatchNumericUnique(s, m);
  }

  /** A leftmost long-form match whose month word spells the i-th abbreviation in its first
      three letters, in any case, and whose fields are in range, comes back unchanged as
      that date (a year 0000..0099 is read as 19xx by the Date constructor). */
  lemma LongFormInRange(native: NativeParser, s: string, m: LongSpan, i: int)
    requires native(s).InvalidDate?
    requires LongFormMatches(s, m) && forall m' :: LongFormMatches(s, m') ==> m.start <= m'.start
    requires 0 <= i < 12
    requires var f := LongCaptures(s, m);
             |f.monthName| >= 3 && Lower(f.monthName[..3]) == Abbreviations[i]
             && Valid(DateTime(MakeFullYear(f.year), i, f.day, f.hour, f.minute))
    ensures var f := LongCaptures(s, m);
            TryParse(native, s) == Some(LocalDate(DateTime(MakeFullYear(f.year), i, f.day, f.hour, f.minute)))
  {
    var f := LongCaptures(s, m);
    LongFormFromMatch(s, m);
    MonthIndexByPrefix(f.monthName, i);
    NewDateNeverInvalid(f.year, i, f.day, f.hour, f.minute);
    NewDateInRange(f.year, i, f.day, f.hour, f.minute);
    LongFormBeforeNumeric(native, s);
  }

  /** A leftmost numeric match, when no long form applies, is read day first; a two-digit
      year means 20xx; fields in range come back unchanged. */
  lemma NumericInRange(native: NativeParser, s: string, m: NumericSpan)
    requires native(s).InvalidDate? && LongFormStrategy(s).None?
    requires NumericMatches(s, m) && forall m' :: NumericMatches(s, m') ==> m.start <= m'.start
    requires var f := NumericCaptures(s, m);
             Valid(DateTime(NumericYear(f.year), f.month - 1, f.day, f.hour, f.minute))
    ensures var f := NumericCaptures(s, m);
            TryParse(native, s) == Some(LocalDate(DateTime(NumericYear(f.year), f.month - 1, f.day, f.hour, f.minute)))
  {
    var f := NumericCaptures(s, m);
    var year := NumericYear(f.year);
    assert MakeFullYear(year) == year;
    NewDateNeverInvalid(year, f.month - 1, f.day, f.hour, f.minute);
    NewDateInRange(year, f.month - 1, f.day, f.hour, f.minute);
    ReachesNumeric(native, s);
    NumericFromMatch(s, m);
  }

  /** A numeric match is never rejected for out-of-range fields: the date it yields is the
      one whose time value is that of the raw day, month - 1, year, hour and minute, so
      31/02 becomes 3 March (or 2 March in a leap year) and 24:00 the next midnight. */
  lemma NumericRollsOver(native: NativeParser, s: string, m: NumericSpan)
    requires native(s).InvalidDate? && LongFormStrategy(s).None?
    requires NumericMatches(s, m) && forall m' :: NumericMatches(s, m') ==> m.start <= m'.start
    ensures var f := NumericCaptures(s, m);
            && TryParse(native, s).Some? && TryParse(native, s).value.LocalDate?
            && Minutes(TryParse(native, s).value.dt)
               == TimeValue(NumericYear(f.year), f.month - 1, f.day, f.hour, f.minute)
  {
    var f := NumericCaptures(s, m);
    ReachesNumeric(native, s);
    NumericFromMatch(s, m);
    NewDateNeverInvalid(NumericYear(f.year), f.month - 1, f.day, f.hour, f.minute);
  }

  /** The long form's year window: a year group 0000..0099 is taken by the Date
      constructor as 1900 + year. */
  lemma LongFormCenturyYear(native: NativeParser, s: string, m: LongSpan, i: int)
    requires native(s).InvalidDate?
    requires LongFormMatches(s, m) && forall m' :: LongFormMatches(s, m') ==> m.start <= m'.start
    requires 0 <= i < 12
    requires var f := LongCaptures(s, m);
             f.year <= 99 && |f.monthName| >= 3 && Lower(f.monthName[..3]) == Abbreviations[i]
             && Valid(DateTime(1900 + f.year, i, f.day, f.hour, f.minute))
    ensures TryParse(native, s).Some? && TryParse(native, s).value.dt.year == 1900 + LongCaptures(s, m).year
  {
    LongFormInRange(native, s, m, i);
  }

  /** The numeric form's year window: a year below 100 is taken as 2000 + year, so the same
      two digits give a year a century later than in the long form. */
  lemma NumericCenturyYear(native: NativeParser, s: string, m: NumericSpan)
    requires native(s).InvalidDate? && LongFormStrategy(s).None?
    requires NumericMatches(s, m) && forall m' :: NumericMatches(s, m') ==> m.start <= m'.start
    requires var f := NumericCaptures(s, m);
             f.year < 100 && Valid(DateTime(2000 + f.year, f.month - 1, f.day, f.hour, f.minute))
    ensures TryParse(native, s).Some? && TryParse(native, s).value.dt.year == 2000 + NumericCaptures(s, m).year
  {
    NumericInRange(native, s, m);
  }

  // ---------------------------------------------------------------------------
  // The round trip through the date field.

  /** The native parser reads the field's own format as local time, as ECMA-262 section
      21.4.3.2 (Date.parse) prescribes for a date-time form without an offset. */
  ghost predicate ReadsLocalInput(native: NativeParser) {
    forall s :: |s| == 16 && ParseLocalInput(s).Some? ==> native(s) == LocalDate(ParseLocalInput(s).value)
  }

  /** From year 1000 on, the value written into the field is kept by the input and reads
      back as the parsed date. */
  lemma NormalizedReadsBack(native: NativeParser, s: string, dt: LocalDateTime)
    requires TryParse(native, s) == Some(LocalDate(dt)) && dt.year >= 1000
    ensures Normalize(native, Some(s)) == Format(dt)
    ensures DateField(native, Some(s)) == Normalize(native, Some(s))
    ensures ParseLocalInput(DateField(native, Some(s))) == Some(dt)
  {
    FormatRoundTrip(dt);
  }

  /** Normalising is idempotent once the engine reads the field's format: a normalised
      value normalises to itself. */
  lemma NormalizeIdempotent(native: NativeParser, s: string, dt: LocalDateTime)
    requires ReadsLocalInput(native)
    requires TryParse(native, s) == Some(LocalDate(dt)) && 1000 <= dt.year <= 9999
    ensures Normalize(native, Some(Normalize(native, Some(s)))) == Normalize(native, Some(s))
  {
    NormalizedReadsBack(native, s, dt);
    var iso := Format(dt);
    FormatRoundTrip(dt);
    assert native(iso) == LocalDate(dt);
    NativeFirst(native, iso);
    NormalizedReadsBack(native, iso, dt);
  }

  /** A timestamp already stored in the field's own format is passed through unchanged,
      once the engine reads that format, exactly when its year is 1000 or later; an earlier
      year carries a leading zero the formatter does not write back. */
  lemma NormalizePassesThrough(native: NativeParser, s: string, dt: LocalDateTime)
    requires ReadsLocalInput(native)
    requires |s| == 16 && ParseLocalInput(s) == Some(dt)
    ensures Normalize(native, Some(s)) == Format(dt)
    ensures Normalize(native, Some(s)) == s <==> dt.year >= 1000
    ensures DateField(native, Some(s)) == s <==> dt.year >= 1000
  {
    assert native(s) == LocalDate(dt);
    NativeFirst(native, s);
    ParseThenFormat(s, dt);
    FieldValueOfFormat(dt);
  }
}
