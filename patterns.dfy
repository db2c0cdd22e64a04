/** The two regular expressions of `tryParse` (public/index.js:96 and :115), as
    `String.prototype.match` without the `g` flag applies them: the match that starts
    leftmost wins.

    Each expression is stated twice. A "span" predicate (LongFormMatches,
    NumericMatches) reads the expression as a language: it says which substrings match
    and where each capture group lies. A scanner (LongFormAt, NumericAt) reads one
    candidate start position greedily. The lemmas show that the scanner finds a span
    exactly when one exists at that start, and that the span is then unique, so the
    backtracking order of the regular-expression engine cannot change any capture. */
module Patterns {
  import opened Wrappers
  import opened Text

  /** Index just past the run of characters satisfying `p` that starts at `i`. */
  function Skip(s: string, i: nat, p: char -> bool): (j: nat)
    requires i <= |s|
    ensures i <= j <= |s| && AllIn(s, i, j, p)
    ensures j < |s| ==> !p(s[j])
    decreases |s| - i
  {
    if i < |s| && p(s[i]) then Skip(s, i + 1, p) else i
  }

  /** Greedy `\d{1,max}`: index just past at most `max` digits starting at `i`. */
  function Digits(s: string, i: nat, max: nat): (j: nat)
    requires i <= |s|
    ensures i <= j <= i + max && j <= |s| && AllIn(s, i, j, IsDigit)
    ensures j < i + max && j < |s| ==> !IsDigit(s[j])
    decreases max
  {
    if max > 0 && i < |s| && IsDigit(s[i]) then Digits(s, i + 1, max - 1) else i
  }

  /** A run of `p` that ends where `p` stops holding is the one Skip finds. */
  lemma SkipExact(s: string, i: nat, j: nat, p: char -> bool)
    requires AllIn(s, i, j, p) && (j == |s| || !p(s[j]))
    ensures Skip(s, i, p) == j
  {
  }

  /** A run of digits that cannot be extended is the one Digits finds. */
  lemma DigitsExact(s: string, i: nat, j: nat, max: nat)
    requires AllIn(s, i, j, IsDigit) && j <= i + max
    requires j == i + max || j == |s| || !IsDigit(s[j])
    ensures Digits(s, i, max) == j
  {
  }

  /** s[i..j] is a run of `lo` to `hi` digits. */
  predicate DigitRun(s: string, i: nat, j: nat, lo: nat, hi: nat) {
    i + lo <= j <= i + hi && AllIn(s, i, j, IsDigit)
  }

  /** s[i..j] is a non-empty run of characters satisfying `p`. */
  predicate Run(s: string, i: nat, j: nat, p: char -> bool) {
    i < j && AllIn(s, i, j, p)
  }

  /** `(\d{1,2}):(\d{2})`, the clock that ends both expressions, matches s[h..e+3]
      with the hour in s[h..e] and the minute in s[e+1..e+3]. */
  predicate ClockMatches(s: string, h: nat, e: nat) {
    DigitRun(s, h, e, 1, 2) && e < |s| && s[e] == ':' && DigitRun(s, e + 1, e + 3, 2, 2)
  }

  /** Reads the clock starting at `h`; returns where the hour ends. */
  function ScanClock(s: string, h: nat): (r: Option<nat>)
    requires h <= |s|
    ensures r.Some? ==> ClockMatches(s, h, r.value)
  {
    var e := Digits(s, h, 2);
    if e == h || e + 3 > |s| || s[e] != ':' || Digits(s, e + 1, 2) != e + 3 then None
    else Some(e)
  }

  lemma ScanClockComplete(s: string, h: nat, e: nat)
    requires ClockMatches(s, h, e)
    ensures ScanClock(s, h) == Some(e)
  {
    DigitsExact(s, h, e, 2);
    DigitsExact(s, e + 1, e + 3, 2);
  }

  /** The value of the digit run s[i..j] (`parseInt` of a capture group). */
  function Number(s: string, i: nat, j: nat): (n: nat)
    requires AllIn(s, i, j, IsDigit)
    ensures n < Pow10(j - i)
  {
    assert AllDigits(s[i..j]) by {
      forall k | 0 <= k < j - i ensures IsDigit(s[i..j][k]) {
        assert s[i..j][k] == s[i + k];
      }
    }
    DecimalValue(s[i..j])
  }

  /** One more digit on the right multiplies the value by ten and adds the digit. */
  lemma NumberStep(s: string, i: nat, j: nat)
    requires i <= j && AllIn(s, i, j + 1, IsDigit)
    ensures AllIn(s, i, j, IsDigit) && IsDigit(s[j])
    ensures Number(s, i, j + 1) == 10 * Number(s, i, j) + DigitValue(s[j])
  {
    assert AllIn(s, i, j, IsDigit) by {
      forall k | i <= k < j ensures IsDigit(s[k]) {
        AllInAt(s, i, j + 1, IsDigit, k);
      }
    }
    AllInAt(s, i, j + 1, IsDigit, j);
    assert s[i..j + 1][..j - i] == s[i..j];
  }

  /** The value of a two-digit run. */
  lemma NumberOfTwo(s: string, i: nat)
    requires AllIn(s, i, i + 2, IsDigit)
    ensures IsDigit(s[i]) && IsDigit(s[i + 1])
    ensures Number(s, i, i + 2) == 10 * DigitValue(s[i]) + DigitValue(s[i + 1])
  {
    NumberStep(s, i, i + 1);
    NumberStep(s, i, i);
  }

  /** The value of a four-digit run. */
  lemma NumberOfFour(s: string, i: nat)
    requires AllIn(s, i, i + 4, IsDigit)
    ensures IsDigit(s[i]) && IsDigit(s[i + 1]) && IsDigit(s[i + 2]) && IsDigit(s[i + 3])
    ensures Number(s, i, i + 4)
         == 1000 * DigitValue(s[i]) + 100 * DigitValue(s[i + 1]) + 10 * DigitValue(s[i + 2]) + DigitValue(s[i + 3])
  {
    NumberStep(s, i, i + 3);
    NumberStep(s, i, i + 2);
    NumberOfTwo(s, i);
  }

  /** The first start position q in [p, n] at which `hit` holds: `match` without the
      `g` flag tries the start positions of an expression from left to right and stops
      at the first one where the expression matches. */
  function FirstHit(hit: nat -> bool, p: nat, n: nat): (r: Option<nat>)
    requires p <= n
    ensures r.Some? ==> p <= r.value <= n && hit(r.value)
    decreases n - p
  {
    if hit(p) then Some(p) else if p == n then None else FirstHit(hit, p + 1, n)
  }

  /** No position before the one FirstHit returns is a hit, and it returns something
      whenever there is a hit in range. */
  lemma {:induction false} FirstHitLeast(hit: nat -> bool, p: nat, n: nat, q: nat)
    requires p <= q <= n && hit(q)
    ensures FirstHit(hit, p, n).Some? && FirstHit(hit, p, n).value <= q
    decreases q - p
  {
    if p < q && !hit(p) {
      FirstHitLeast(hit, p + 1, n, q);
    }
  }

  // ---------------------------------------------------------------------------
  // Long form: /(\d{1,2})\s+([A-Za-z]+)\s+(\d{4})(?:,|\s+at\s+)?\s*(\d{1,2}):(\d{2})/i

  /** Which branch of `(?:,|\s+at\s+)?` was taken; `At` records where the word `at` begins. */
  datatype Separator = Comma | At(at: nat) | Blank

  /** Group boundaries of a long-form match: day s[start..dayEnd], month word
      s[wordStart..wordEnd], year s[yearStart..yearStart+4], hour s[hourStart..hourEnd],
      minute s[hourEnd+1..hourEnd+3]. */
  datatype LongSpan = LongSpan(
    start: nat, dayEnd: nat, wordStart: nat, wordEnd: nat, yearStart: nat,
    sep: Separator, hourStart: nat, hourEnd: nat)

  /** The literal `at` under the `i` flag. */
  predicate AtWord(s: string, a: nat) {
    a + 2 <= |s| && (s[a] == 'a' || s[a] == 'A') && (s[a + 1] == 't' || s[a + 1] == 'T')
  }

  /** `(\d{1,2})\s+([A-Za-z]+)\s+(\d{4})`: day, month word and year. */
  predicate LongDateMatches(s: string, m: LongSpan) {
    && DigitRun(s, m.start, m.dayEnd, 1, 2)
    && Run(s, m.dayEnd, m.wordStart, IsSpace)
    && Run(s, m.wordStart, m.wordEnd, IsAsciiLetter)
    && Run(s, m.wordEnd, m.yearStart, IsSpace)
    && DigitRun(s, m.yearStart, m.yearStart + 4, 4, 4)
  }

  /** `(?:,|\s+at\s+)?\s*` matches s[q..h] by way of `sep`. */
  predicate SeparatorMatches(s: string, q: nat, sep: Separator, h: nat) {
    match sep
    case Comma => q < |s| && s[q] == ',' && AllIn(s, q + 1, h, IsSpace)
    case At(a) => Run(s, q, a, IsSpace) && AtWord(s, a) && Run(s, a + 2, h, IsSpace)
    case Blank => AllIn(s, q, h, IsSpace)
  }

  /** The long-form expression matches s[m.start..m.hourEnd + 3] with the groups of `m`. */
  predicate LongFormMatches(s: string, m: LongSpan) {
    && LongDateMatches(s, m)
    && SeparatorMatches(s, m.yearStart + 4, m.sep, m.hourStart)
    && ClockMatches(s, m.hourStart, m.hourEnd)
  }

  /** Reads day, month word and year from `p`; returns dayEnd, wordStart, wordEnd, yearStart. */
  function ScanLongDate(s: string, p: nat): (r: Option<(nat, nat, nat, nat)>)
    requires p <= |s|
    ensures r.Some? ==> LongDateMatches(s, LongSpan(p, r.value.0, r.value.1, r.value.2, r.value.3, Blank, 0, 0))
  {
    var dayEnd := Digits(s, p, 2);
    var wordStart := Skip(s, dayEnd, IsSpace);
    var wordEnd := Skip(s, wordStart, IsAsciiLetter);
    var yearStart := Skip(s, wordEnd, IsSpace);
    if dayEnd == p || wordStart == dayEnd || wordEnd == wordStart || yearStart == wordEnd
       || yearStart + 4 > |s| || Digits(s, yearStart, 4) != yearStart + 4
    then None
    else Some((dayEnd, wordStart, wordEnd, yearStart))
  }

  lemma ScanLongDateComplete(s: string, m: LongSpan)
    requires LongDateMatches(s, m)
    ensures ScanLongDate(s, m.start) == Some((m.dayEnd, m.wordStart, m.wordEnd, m.yearStart))
  {
    AllInAt(s, m.dayEnd, m.wordStart, IsSpace, m.dayEnd);
    DigitsExact(s, m.start, m.dayEnd, 2);
    AllInAt(s, m.wordStart, m.wordEnd, IsAsciiLetter, m.wordStart);
    SkipExact(s, m.dayEnd, m.wordStart, IsSpace);
    AllInAt(s, m.wordEnd, m.yearStart, IsSpace, m.wordEnd);
    SkipExact(s, m.wordStart, m.wordEnd, IsAsciiLetter);
    AllInAt(s, m.yearStart, m.yearStart + 4, IsDigit, m.yearStart);
    SkipExact(s, m.wordEnd, m.yearStart, IsSpace);
    DigitsExact(s, m.yearStart, m.yearStart + 4, 4);
  }

  /** Reads the separator after the year greedily: a comma, else spaces, `at`, spaces,
      else plain spaces. Returns the branch and where the hour begins. */
  function ScanSeparator(s: string, q: nat): (r: (Separator, nat))
    requires q <= |s|
    ensures SeparatorMatches(s, q, r.0, r.1)
  {
    if q < |s| && s[q] == ',' then (Comma, Skip(s, q + 1, IsSpace))
    else
      var a := Skip(s, q, IsSpace);
      if a > q && AtWord(s, a) && Skip(s, a + 2, IsSpace) > a + 2 then (At(a), Skip(s, a + 2, IsSpace))
      else (Blank, a)
  }

  lemma ScanSeparatorComplete(s: string, q: nat, sep: Separator, h: nat)
    requires q <= |s| && SeparatorMatches(s, q, sep, h)
    requires h < |s| && IsDigit(s[h])
    ensures ScanSeparator(s, q) == (sep, h)
  {
    match sep
    case Comma =>
      SkipExact(s, q + 1, h, IsSpace);
    case At(a) =>
      SkipExact(s, q, a, IsSpace);
      SkipExact(s, a + 2, h, IsSpace);
    case Blank =>
      SkipExact(s, q, h, IsSpace);
  }

  /** The long-form expression tried at start position `p`. */
  function LongFormAt(s: string, p: nat): (r: Option<LongSpan>)
    requires p <= |s|
    ensures r.Some? ==> r.value.start == p && LongFormMatches(s, r.value)
  {
    var date := ScanLongDate(s, p);
    if date.None? then None
    else
      var sep := ScanSeparator(s, date.value.3 + 4);
      var clock := ScanClock(s, sep.1);
      if clock.None? then None
      else Some(LongSpan(p, date.value.0, date.value.1, date.value.2, date.value.3, sep.0, sep.1, clock.value))
  }

  /** Every long-form match starting at `m.start` is the one the scanner finds there:
      the scanner is complete, and a match is determined by its start. */
  lemma LongFormAtComplete(s: string, m: LongSpan)
    requires LongFormMatches(s, m)
    ensures LongFormAt(s, m.start) == Some(m)
  {
    ScanLongDateComplete(s, m);
    AllInAt(s, m.hourStart, m.hourEnd, IsDigit, m.hourStart);
    ScanSeparatorComplete(s, m.yearStart + 4, m.sep, m.hourStart);
    ScanClockComplete(s, m.hourStart, m.hourEnd);
    LongFormAtOf(s, m.start, (m.dayEnd, m.wordStart, m.wordEnd, m.yearStart), (m.sep, m.hourStart), m.hourEnd);
  }

  /** LongFormAt assembled from the results of its three stages. */
  lemma LongFormAtOf(s: string, p: nat, d: (nat, nat, nat, nat), sep: (Separator, nat), e: nat)
    requires p <= |s| && ScanLongDate(s, p) == Some(d)
    requires ScanSeparator(s, d.3 + 4) == sep && ScanClock(s, sep.1) == Some(e)
    ensures LongFormAt(s, p) == Some(LongSpan(p, d.0, d.1, d.2, d.3, sep.0, sep.1, e))
  {
  }

  /** The start positions at which the long-form expression matches. */
  function LongFormHit(s: string): nat -> bool {
    (q: nat) => q <= |s| && LongFormAt(s, q).Some?
  }

  /** `input.match(/…/i)` with the long-form expression (public/index.js:96). */
  function MatchLongForm(s: string): (r: Option<LongSpan>)
    ensures r.Some? ==> LongFormMatches(s, r.value)
  {
    match FirstHit(LongFormHit(s), 0, |s|)
    case None => None
    case Some(q) => LongFormAt(s, q)
  }

  /** Some match is found whenever one exists, and it starts no later than that one. */
  lemma MatchLongFormFirst(s: string, m: LongSpan)
    requires LongFormMatches(s, m)
    ensures MatchLongForm(s).Some? && MatchLongForm(s).value.start <= m.start
  {
    LongFormShape(s, m);
    LongFormAtComplete(s, m);
    FirstHitLeast(LongFormHit(s), 0, |s|, m.start);
  }

  /** A long-form match begins with a digit, contains a letter and lies inside `s`. */
  lemma LongFormShape(s: string, m: LongSpan)
    requires LongFormMatches(s, m)
    ensures m.start < m.wordStart < m.wordEnd <= m.hourEnd + 3 <= |s|
    ensures IsDigit(s[m.start]) && IsAsciiLetter(s[m.wordStart])
  {
    AllInAt(s, m.start, m.dayEnd, IsDigit, m.start);
    AllInAt(s, m.wordStart, m.wordEnd, IsAsciiLetter, m.wordStart);
  }

  /** The long-form match is the match that starts leftmost, and it exists exactly when
      the expression matches somewhere. */
  lemma MatchLongFormSpec(s: string, m: LongSpan)
    ensures MatchLongForm(s) == Some(m)
        <==> LongFormMatches(s, m) && forall m' :: LongFormMatches(s, m') ==> m.start <= m'.start
    ensures MatchLongForm(s).None? <==> forall m' :: !LongFormMatches(s, m')
  {
    if MatchLongForm(s).Some? {
      MatchLongFormLeftmost(s);
    } else {
      forall m' | LongFormMatches(s, m') ensures false {
        MatchLongFormFirst(s, m');
      }
    }
    if LongFormMatches(s, m) && (forall m' :: LongFormMatches(s, m') ==> m.start <= m'.start) {
      MatchLongFormUnique(s, m);
    }
  }

  /** What the search returns starts no later than any match. */
  lemma MatchLongFormLeftmost(s: string)
    requires MatchLongForm(s).Some?
    ensures forall m' :: LongFormMatches(s, m') ==> MatchLongForm(s).value.start <= m'.start
  {
    forall m' | LongFormMatches(s, m') ensures MatchLongForm(s).value.start <= m'.start {
      MatchLongFormFirst(s, m');
    }
  }

  /** A leftmost match is the one the search returns. */
  lemma MatchLongFormUnique(s: string, m: LongSpan)
    requires LongFormMatches(s, m) && forall m' :: LongFormMatches(s, m') ==> m.start <= m'.start
    ensures MatchLongForm(s) == Some(m)
  {
    MatchLongFormFirst(s, m);
    var r := MatchLongForm(s).value;
    assert r.start == m.start;
    LongFormAtComplete(s, r);
    LongFormAtComplete(s, m);
  }

  /** The capture groups of a long-form match, converted as the source converts them. */
  datatype LongFields = LongFields(day: nat, monthName: string, year: nat, hour: nat, minute: nat)

  function LongCaptures(s: string, m: LongSpan): (f: LongFields)
    requires LongFormMatches(s, m)
    ensures f.day < 100 && f.year < 10000 && f.hour < 100 && f.minute < 100
    ensures f.monthName == s[m.wordStart..m.wordEnd] && |f.monthName| >= 1
  {
    LongFields(
      Number(s, m.start, m.dayEnd), s[m.wordStart..m.wordEnd], Number(s, m.yearStart, m.yearStart + 4),
      Number(s, m.hourStart, m.hourEnd), Number(s, m.hourEnd + 1, m.hourEnd + 3))
  }

  // ---------------------------------------------------------------------------
  // Numeric form: /(\d{1,2})[\/\-](\d{1,2})[\/\-](\d{2,4})[, ]+?(\d{1,2}):(\d{2})/

  predicate IsDateSeparator(c: char) {
    c == '/' || c == '-'
  }

  /** `[, ]`: only the comma and the ASCII space, not `\s`. */
  predicate IsCommaOrSpace(c: char) {
    c == ',' || c == ' '
  }

  /** Group boundaries of a numeric match: day s[start..dayEnd], month
      s[dayEnd+1..monthEnd], year s[monthEnd+1..yearEnd], hour s[hourStart..hourEnd],
      minute s[hourEnd+1..hourEnd+3]. */
  datatype NumericSpan = NumericSpan(
    start: nat, dayEnd: nat, monthEnd: nat, yearEnd: nat, hourStart: nat, hourEnd: nat)

  /** `(\d{1,2})[\/\-](\d{1,2})[\/\-](\d{2,4})`: day, month and year. */
  predicate NumericDateMatches(s: string, m: NumericSpan) {
    && DigitRun(s, m.start, m.dayEnd, 1, 2) && m.dayEnd < |s| && IsDateSeparator(s[m.dayEnd])
    && DigitRun(s, m.dayEnd + 1, m.monthEnd, 1, 2) && m.monthEnd < |s| && IsDateSeparator(s[m.monthEnd])
    && DigitRun(s, m.monthEnd + 1, m.yearEnd, 2, 4)
  }

  /** The numeric expression matches s[m.start..m.hourEnd + 3] with the groups of `m`;
      the lazy `[, ]+?` covers s[m.yearEnd..m.hourStart]. */
  predicate NumericMatches(s: string, m: NumericSpan) {
    && NumericDateMatches(s, m)
    && Run(s, m.yearEnd, m.hourStart, IsCommaOrSpace)
    && ClockMatches(s, m.hourStart, m.hourEnd)
  }

  /** Reads day, month and year from `p`; returns dayEnd, monthEnd, yearEnd. */
  function ScanNumericDate(s: string, p: nat): (r: Option<(nat, nat, nat)>)
    requires p <= |s|
    ensures r.Some? ==> NumericDateMatches(s, NumericSpan(p, r.value.0, r.value.1, r.value.2, 0, 0))
  {
    var dayEnd := Digits(s, p, 2);
    if dayEnd == p || dayEnd == |s| || !IsDateSeparator(s[dayEnd]) then None
    else
      var monthEnd := Digits(s, dayEnd + 1, 2);
      if monthEnd == dayEnd + 1 || monthEnd == |s| || !IsDateSeparator(s[monthEnd]) then None
      else
        var yearEnd := Digits(s, monthEnd + 1, 4);
        if yearEnd < monthEnd + 3 then None
        else Some((dayEnd, monthEnd, yearEnd))
  }

  lemma ScanNumericDateComplete(s: string, m: NumericSpan)
    requires NumericDateMatches(s, m)
    requires m.yearEnd < |s| && !IsDigit(s[m.yearEnd])
    ensures ScanNumericDate(s, m.start) == Some((m.dayEnd, m.monthEnd, m.yearEnd))
  {
    DigitsExact(s, m.start, m.dayEnd, 2);
    DigitsExact(s, m.dayEnd + 1, m.monthEnd, 2);
    DigitsExact(s, m.monthEnd + 1, m.yearEnd, 4);
  }

  /** The numeric expression tried at start position `p`. */
  function NumericAt(s: string, p: nat): (r: Option<NumericSpan>)
    requires p <= |s|
    ensures r.Some? ==> r.value.start == p && NumericMatches(s, r.value)
  {
    var date := ScanNumericDate(s, p);
    if date.None? then None
    else
      var hourStart := Skip(s, date.value.2, IsCommaOrSpace);
      var clock := ScanClock(s, hourStart);
      if hourStart == date.value.2 || clock.None? then None
      else Some(NumericSpan(p, date.value.0, date.value.1, date.value.2, hourStart, clock.value))
  }

  /** Every numeric match starting at `m.start` is the one the scanner finds there. */
  lemma NumericAtComplete(s: string, m: NumericSpan)
    requires NumericMatches(s, m)
    ensures NumericAt(s, m.start) == Some(m)
  {
    AllInAt(s, m.yearEnd, m.hourStart, IsCommaOrSpace, m.yearEnd);
    ScanNumericDateComplete(s, m);
    AllInAt(s, m.hourStart, m.hourEnd, IsDigit, m.hourStart);
    SkipExact(s, m.yearEnd, m.hourStart, IsCommaOrSpace);
    ScanClockComplete(s, m.hourStart, m.hourEnd);
  }

  /** The start positions at which the numeric expression matches. */
  function NumericHit(s: string): nat -> bool {
    (q: nat) => q <= |s| && NumericAt(s, q).Some?
  }

  /** `input.match(/…/)` with the numeric expression (public/index.js:115). */
  function MatchNumeric(s: string): (r: Option<NumericSpan>)
    ensures r.Some? ==> NumericMatches(s, r.value)
  {
    match FirstHit(NumericHit(s), 0, |s|)
    case None => None
    case Some(q) => NumericAt(s, q)
  }

  /** Some match is found whenever one exists, and it starts no later than that one. */
  lemma MatchNumericFirst(s: string, m: NumericSpan)
    requires NumericMatches(s, m)
    ensures MatchNumeric(s).Some? && MatchNumeric(s).value.start <= m.start
  {
    NumericShape(s, m);
    NumericAtComplete(s, m);
    FirstHitLeast(NumericHit(s), 0, |s|, m.start);
  }

  /** A numeric match begins with a digit and lies inside `s`. */
  lemma NumericShape(s: string, m: NumericSpan)
    requires NumericMatches(s, m)
    ensures m.start < m.hourEnd + 3 <= |s| && IsDigit(s[m.start])
  {
    AllInAt(s, m.start, m.dayEnd, IsDigit, m.start);
  }

  /** The numeric match is the match that starts leftmost, and it exists exactly when the
      expression matches somewhere. */
  lemma MatchNumericSpec(s: string, m: NumericSpan)
    ensures MatchNumeric(s) == Some(m)
        <==> NumericMatches(s, m) && forall m' :: NumericMatches(s, m') ==> m.start <= m'.start
    ensures MatchNumeric(s).None? <==> forall m' :: !NumericMatches(s, m')
  {
    if MatchNumeric(s).Some? {
      MatchNumericLeftmost(s);
    } else {
      forall m' | NumericMatches(s, m') ensures false {
        MatchNumericFirst(s, m');
      }
    }
    if NumericMatches(s, m) && (forall m' :: NumericMatches(s, m') ==> m.start <= m'.start) {
      MatchNumericUnique(s, m);
    }
  }

  /** What the search returns starts no later than any match. */
  lemma MatchNumericLeftmost(s: string)
    requires MatchNumeric(s).Some?
    ensures forall m' :: NumericMatches(s, m') ==> MatchNumeric(s).value.start <= m'.start
  {
    forall m' | NumericMatches(s, m') ensures MatchNumeric(s).value.start <= m'.start {
      MatchNumericFirst(s, m');
    }
  }

  /** A leftmost match is the one the search returns. */
  lemma MatchNumericUnique(s: string, m: NumericSpan)
    requires NumericMatches(s, m) && forall m' :: NumericMatches(s, m') ==> m.start <= m'.start
    ensures MatchNumeric(s) == Some(m)
  {
    MatchNumericFirst(s, m);
    var r := MatchNumeric(s).value;
    assert r.start == m.start;
    NumericAtComplete(s, r);
    NumericAtComplete(s, m);
  }

  /** The capture groups of a numeric match, as integers: day first, then month. */
  datatype NumericFields = NumericFields(day: nat, month: nat, year: nat, hour: nat, minute: nat)

  function NumericCaptures(s: string, m: NumericSpan): (f: NumericFields)
    requires NumericMatches(s, m)
    ensures f.day < 100 && f.month < 100 && f.year < 10000 && f.hour < 100 && f.minute < 100
  {
    NumericFields(
      Number(s, m.start, m.dayEnd), Number(s, m.dayEnd + 1, m.monthEnd),
      Number(s, m.monthEnd + 1, m.yearEnd), Number(s, m.hourStart, m.hourEnd),
      Number(s, m.hourEnd + 1, m.hourEnd + 3))
  }

  /** Both expressions begin with a digit: a string without digits matches neither. */
  lemma NoDigitNoMatch(s: string)
    requires forall k :: 0 <= k < |s| ==> !IsDigit(s[k])
    ensures MatchLongForm(s).None? && MatchNumeric(s).None?
  {
    MatchLongFormSpec(s, LongSpan(0, 0, 0, 0, 0, Blank, 0, 0));
    MatchNumericSpec(s, NumericSpan(0, 0, 0, 0, 0, 0));
    if MatchLongForm(s).Some? {
      LongFormShape(s, MatchLongForm(s).value);
    }
    if MatchNumeric(s).Some? {
      NumericShape(s, MatchNumeric(s).value);
    }
  }

  /** The long form needs a month word: a string without ASCII letters never matches it. */
  lemma NoLetterNoLongForm(s: string)
    requires forall k :: 0 <= k < |s| ==> !IsAsciiLetter(s[k])
    ensures MatchLongForm(s).None?
  {
    if MatchLongForm(s).Some? {
      LongFormShape(s, MatchLongForm(s).value);
    }
  }
}
