/**
 * What `datetime.strptime(s, fmt)` accepts for the three timestamp formats
 * of the validator. Python turns each directive of a format into a regular
 * expression (the alternatives below, tried in order), matches the whole
 * pattern at the start of `s` (case-insensitively, with a blank in the format
 * standing for one or more whitespace characters), fails when text is left
 * over, and then builds a `datetime`, which rejects a year 0, a day past the
 * end of the month and a second of 60 or 61.
 *
 * Each directive is followed in the formats by a literal that is not a digit,
 * and its longer alternatives come before its one-digit one, so the first
 * alternative that matches is the only one the whole pattern can go on
 * with: matching directive by directive without backtracking gives the same
 * answer as the regular-expression engine.
 */
module Timestamps {
  import opened Options
  import opened PyText

  // ---------------------------------------------------------------------------
  // The directives' regular expressions

  datatype CharClass = Exact(c: char) | Range(lo: char, hi: char)

  predicate InClass(c: char, k: CharClass) {
    match k
    case Exact(e) => c == e
    case Range(lo, hi) => lo <= c <= hi
  }

  const DIGIT: CharClass := Range('0', '9')

  /** `%Y`: `\d\d\d\d`. */
  const YEAR: seq<seq<CharClass>> := [[DIGIT, DIGIT, DIGIT, DIGIT]]
  /** `%m`: `1[0-2]|0[1-9]|[1-9]`. */
  const MONTH: seq<seq<CharClass>> := [[Exact('1'), Range('0', '2')], [Exact('0'), Range('1', '9')], [Range('1', '9')]]
  /** `%d`: `3[01]|[12]\d|0[1-9]|[1-9]| [1-9]`. */
  const DAY: seq<seq<CharClass>> :=
    [[Exact('3'), Range('0', '1')], [Range('1', '2'), DIGIT], [Exact('0'), Range('1', '9')], [Range('1', '9')], [Exact(' '), Range('1', '9')]]
  /** `%H`: `2[0-3]|[0-1]\d|\d`. */
  const HOUR: seq<seq<CharClass>> := [[Exact('2'), Range('0', '3')], [Range('0', '1'), DIGIT], [DIGIT]]
  /** `%M`: `[0-5]\d|\d`. */
  const MINUTE: seq<seq<CharClass>> := [[Range('0', '5'), DIGIT], [DIGIT]]
  /** `%S`: `6[0-1]|[0-5]\d|\d`. */
  const SECOND: seq<seq<CharClass>> := [[Exact('6'), Range('0', '1')], [Range('0', '5'), DIGIT], [DIGIT]]

  predicate MatchesAt(s: string, i: nat, alt: seq<CharClass>) {
    i + |alt| <= |s| && forall k :: 0 <= k < |alt| ==> InClass(s[i + k], alt[k])
  }

  /** A matched directive: its value (`int()` of the matched text) and where the match ends. */
  datatype Token = Token(value: nat, end: nat)

  /**
   * The first alternative that matches at `i`. The day's leading blank counts
   * as a 0 digit, as `int(" 5")` is 5.
   */
  function MatchField(s: string, i: nat, alts: seq<seq<CharClass>>): (r: Option<Token>)
    ensures r.Some? ==> i <= r.value.end <= |s| && r.value.value == DigitsValue(s[i..r.value.end])
    ensures r.Some? ==> exists k :: 0 <= k < |alts| && MatchesAt(s, i, alts[k]) && r.value.end == i + |alts[k]|
  {
    if alts == [] then None
    else if MatchesAt(s, i, alts[0]) then Some(Token(DigitsValue(s[i..i + |alts[0]|]), i + |alts[0]|))
    else
      var r := MatchField(s, i, alts[1..]);
      if r.Some? then
        var k :| 0 <= k < |alts[1..]| && MatchesAt(s, i, alts[1..][k]) && r.value.end == i + |alts[1..][k]|;
        assert alts[k + 1] == alts[1..][k];
        r
      else r
  }

  function Literal(s: string, i: nat, c: char): (r: Option<nat>)
    ensures r.Some? ==> r.value == i + 1 <= |s| && s[i] == c
  {
    if i < |s| && s[i] == c then Some(i + 1) else None
  }

  // ---------------------------------------------------------------------------
  // Formats

  /** What stands between the date and the time: a blank (`\s+`) or a letter, case-insensitive. */
  datatype TimeSeparator = Blank | Letter(upper: char)

  datatype Format = Format(dateSep: char, timeSep: TimeSeparator)

  /** `%Y-%m-%d %H:%M:%S`, `%Y-%m-%dT%H:%M:%S` and `%Y/%m/%d %H:%M:%S`, in the order they are tried. */
  const TIMESTAMP_FORMATS: seq<Format> := [Format('-', Blank), Format('-', Letter('T')), Format('/', Blank)]

  function Separator(s: string, i: nat, sep: TimeSeparator): (r: Option<nat>)
    ensures r.Some? ==> i < r.value <= |s|
  {
    match sep
    case Blank => if i < |s| && IsSpace(s[i]) then Some(SkipSpaces(s, i + 1)) else None
    case Letter(c) => if i < |s| && LowerChar(s[i]) == LowerChar(c) then Some(i + 1) else None
  }

  datatype DateTime = DateTime(year: nat, month: nat, day: nat, hour: nat, minute: nat, second: nat)

  predicate IsLeapYear(y: nat) {
    y % 4 == 0 && (y % 100 != 0 || y % 400 == 0)
  }

  function DaysInMonth(y: nat, m: nat): nat
    requires 1 <= m <= 12
  {
    if m == 2 then (if IsLeapYear(y) then 29 else 28)
    else if m == 4 || m == 6 || m == 9 || m == 11 then 30
    else 31
  }

  /** A date and time `datetime` can hold, to the second. */
  predicate ValidDateTime(dt: DateTime) {
    1 <= dt.year <= 9999 && 1 <= dt.month <= 12 && 1 <= dt.day <= DaysInMonth(dt.year, dt.month)
    && dt.hour <= 23 && dt.minute <= 59 && dt.second <= 59
  }

  datatype Date = Date(year: nat, month: nat, day: nat, end: nat)

  /** `%Y<sep>%m<sep>%d` at the start of `s`. */
  function ParseDate(s: string, sep: char): (r: Option<Date>)
    ensures r.Some? ==> 1 <= r.value.month <= 12 && 1 <= r.value.day <= 31 && r.value.year <= 9999
    ensures r.Some? ==> 4 < |s| && s[4] == sep && r.value.end <= |s|
  {
    var y :- MatchField(s, 0, YEAR);
    var a :- Literal(s, y.end, sep);
    var m :- MatchField(s, a, MONTH);
    var b :- Literal(s, m.end, sep);
    var d :- MatchField(s, b, DAY);
    YearBound(s, y);
    MonthBound(s, a, m);
    DayBound(s, b, d);
    Some(Date(y.value, m.value, d.value, d.end))
  }

  datatype Time = Time(hour: nat, minute: nat, second: nat)

  /** `%H:%M:%S` from `i` to the very end of `s` (no unconverted data). */
  function ParseTime(s: string, i: nat): (r: Option<Time>)
    ensures r.Some? ==> r.value.hour <= 23 && r.value.minute <= 59 && r.value.second <= 61
  {
    var h :- MatchField(s, i, HOUR);
    var a :- Literal(s, h.end, ':');
    var m :- MatchField(s, a, MINUTE);
    var b :- Literal(s, m.end, ':');
    var sec :- MatchField(s, b, SECOND);
    if sec.end != |s| then None
    else
      HourBound(s, i, h);
      MinuteBound(s, a, m);
      SecondBound(s, b, sec);
      Some(Time(h.value, m.value, sec.value))
  }

  /**
   * `datetime.strptime(s, f)` succeeds. Only the checks the `datetime`
   * constructor adds are made here; every other bound comes from the
   * directives' expressions.
   */
  function ParseWith(s: string, f: Format): (r: Option<DateTime>)
    ensures r.Some? ==> ValidDateTime(r.value)
  {
    var date :- ParseDate(s, f.dateSep);
    var i :- Separator(s, date.end, f.timeSep);
    var time :- ParseTime(s, i);
    if date.year >= 1 && date.day <= DaysInMonth(date.year, date.month) && time.second <= 59 then
      Some(DateTime(date.year, date.month, date.day, time.hour, time.minute, time.second))
    else None
  }

  /** The index of the first format, in list order, under which `s` parses. */
  function FirstFormat(s: string, formats: seq<Format>): (r: Option<nat>)
    ensures r.Some? ==> r.value < |formats|
  {
    if formats == [] then None
    else if ParseWith(s, formats[0]).Some? then Some(0)
    else
      match FirstFormat(s, formats[1..])
      case None => None
      case Some(k) => Some(k + 1)
  }

  /** The formats are tried in order: the search stops at the first that parses, and fails when none does. */
  lemma FirstFormatMeaning(s: string, formats: seq<Format>)
    ensures var r := FirstFormat(s, formats);
      (r.Some? ==> ParseWith(s, formats[r.value]).Some? && forall j :: 0 <= j < r.value ==> ParseWith(s, formats[j]).None?) &&
      (r.None? ==> forall j :: 0 <= j < |formats| ==> ParseWith(s, formats[j]).None?)
  {
    FirstFormatFound(s, formats);
    FirstFormatNotFound(s, formats);
  }

  lemma {:induction false} FirstFormatFound(s: string, formats: seq<Format>)
    ensures var r := FirstFormat(s, formats);
      r.Some? ==> ParseWith(s, formats[r.value]).Some? && forall j :: 0 <= j < r.value ==> ParseWith(s, formats[j]).None?
    decreases |formats|
  {
    if formats != [] && ParseWith(s, formats[0]).None? {
      var tail := formats[1..];
      FirstFormatFound(s, tail);
      if FirstFormat(s, tail).Some? {
        var k := FirstFormat(s, tail).value;
        assert FirstFormat(s, formats) == Some(k + 1);
        assert forall j :: 1 <= j <= k + 1 ==> formats[j] == tail[j - 1];
      }
    }
  }

  lemma {:induction false} FirstFormatNotFound(s: string, formats: seq<Format>)
    ensures FirstFormat(s, formats).None? ==> forall j :: 0 <= j < |formats| ==> ParseWith(s, formats[j]).None?
    decreases |formats|
  {
    if formats != [] && ParseWith(s, formats[0]).None? {
      var tail := formats[1..];
      FirstFormatNotFound(s, tail);
      assert forall j :: 1 <= j < |formats| ==> formats[j] == tail[j - 1];
    }
  }

  /** `NetflowValidator.validate_timestamp`: some format, tried in order, parses `s`. */
  predicate ValidTimestamp(s: string) {
    FirstFormat(s, TIMESTAMP_FORMATS).Some?
  }

  // ---------------------------------------------------------------------------
  // The bounds the expressions put on the values

  lemma DigitsValue1(t: string)
    requires |t| == 1
    ensures DigitsValue(t) == DigitValue(t[0])
  {
    assert t[..0] == [];
  }

  lemma DigitsValue2(t: string)
    requires |t| == 2
    ensures DigitsValue(t) == 10 * DigitValue(t[0]) + DigitValue(t[1])
  {
    DigitsValue1(t[..1]);
  }

  /** The value of a one- or two-character match, from the characters matched. */
  lemma TokenValue(s: string, i: nat, alts: seq<seq<CharClass>>, tok: Token)
    requires MatchField(s, i, alts) == Some(tok)
    ensures tok.end == i + 1 ==> tok.value == DigitValue(s[i])
    ensures tok.end == i + 2 ==> tok.value == 10 * DigitValue(s[i]) + DigitValue(s[i + 1])
  {
    var t := s[i..tok.end];
    if tok.end == i + 1 { DigitsValue1(t); }
    if tok.end == i + 2 { DigitsValue2(t); }
  }

  lemma YearBound(s: string, y: Token)
    requires MatchField(s, 0, YEAR) == Some(y)
    ensures y.value <= 9999 && y.end == 4
  {
    DigitsValueBound(s[..4]);
    assert Pow10(4) == 10000;
  }

  lemma MonthBound(s: string, i: nat, m: Token)
    requires MatchField(s, i, MONTH) == Some(m)
    ensures 1 <= m.value <= 12
  {
    var k :| 0 <= k < |MONTH| && MatchesAt(s, i, MONTH[k]) && m.end == i + |MONTH[k]|;
    TokenValue(s, i, MONTH, m);
    assert InClass(s[i], MONTH[k][0]);
    if |MONTH[k]| == 2 { assert InClass(s[i + 1], MONTH[k][1]); }
  }

  lemma DayBound(s: string, i: nat, d: Token)
    requires MatchField(s, i, DAY) == Some(d)
    ensures 1 <= d.value <= 31
  {
    var k :| 0 <= k < |DAY| && MatchesAt(s, i, DAY[k]) && d.end == i + |DAY[k]|;
    TokenValue(s, i, DAY, d);
    assert InClass(s[i], DAY[k][0]);
    if |DAY[k]| == 2 { assert InClass(s[i + 1], DAY[k][1]); }
  }

  lemma HourBound(s: string, i: nat, h: Token)
    requires MatchField(s, i, HOUR) == Some(h)
    ensures h.value <= 23
  {
    var k :| 0 <= k < |HOUR| && MatchesAt(s, i, HOUR[k]) && h.end == i + |HOUR[k]|;
    TokenValue(s, i, HOUR, h);
    assert InClass(s[i], HOUR[k][0]);
    if |HOUR[k]| == 2 { assert InClass(s[i + 1], HOUR[k][1]); }
  }

  lemma MinuteBound(s: string, i: nat, m: Token)
    requires MatchField(s, i, MINUTE) == Some(m)
    ensures m.value <= 59
  {
    var k :| 0 <= k < |MINUTE| && MatchesAt(s, i, MINUTE[k]) && m.end == i + |MINUTE[k]|;
    TokenValue(s, i, MINUTE, m);
    assert InClass(s[i], MINUTE[k][0]);
    if |MINUTE[k]| == 2 { assert InClass(s[i + 1], MINUTE[k][1]); }
  }

  lemma SecondBound(s: string, i: nat, sec: Token)
    requires MatchField(s, i, SECOND) == Some(sec)
    ensures sec.value <= 61
  {
    var k :| 0 <= k < |SECOND| && MatchesAt(s, i, SECOND[k]) && sec.end == i + |SECOND[k]|;
    TokenValue(s, i, SECOND, sec);
    assert InClass(s[i], SECOND[k][0]);
    if |SECOND[k]| == 2 { assert InClass(s[i + 1], SECOND[k][1]); }
  }

  // ---------------------------------------------------------------------------
  // Writing a date and time in a format (`datetime.strftime`)

  /** `%02d`. */
  function Pad2(v: nat): (r: string)
    requires v < 100
    ensures |r| == 2 && AllDigits(r) && DigitsValue(r) == v
  {
    var r := [DigitChar(v / 10), DigitChar(v % 10)];
    DigitsValue2(r);
    r
  }

  /** `%04d`. */
  function Pad4(v: nat): (r: string)
    requires v <= 9999
    ensures |r| == 4 && AllDigits(r) && DigitsValue(r) == v
  {
    var hi := Pad2(v / 100);
    var lo := Pad2(v % 100);
    var r := hi + lo;
    assert r[..3] == hi + [lo[0]] && r[..2] == hi;
    DigitsValue1([lo[0]]);
    r
  }

  function SeparatorText(sep: TimeSeparator): string {
    match sep
    case Blank => " "
    case Letter(c) => [c]
  }

  /** `%Y<sep>%m<sep>%d`. */
  function RenderDate(year: nat, month: nat, day: nat, sep: char): (r: string)
    requires year <= 9999 && month < 100 && day < 100
    ensures |r| == 10
  {
    Pad4(year) + [sep] + Pad2(month) + [sep] + Pad2(day)
  }

  /** `%H:%M:%S`. */
  function RenderTime(hour: nat, minute: nat, second: nat): (r: string)
    requires hour < 100 && minute < 100 && second < 100
    ensures |r| == 8
  {
    Pad2(hour) + [':'] + Pad2(minute) + [':'] + Pad2(second)
  }

  /** `dt.strftime(fmt)` for one of the formats. */
  function Render(dt: DateTime, f: Format): (r: string)
    requires ValidDateTime(dt)
    ensures |r| == 19
  {
    RenderDate(dt.year, dt.month, dt.day, f.dateSep) + SeparatorText(f.timeSep) + RenderTime(dt.hour, dt.minute, dt.second)
  }

  /** The first matching alternative decides the token. */
  lemma {:induction false} FirstMatch(s: string, i: nat, alts: seq<seq<CharClass>>, k: nat)
    requires k < |alts| && MatchesAt(s, i, alts[k])
    requires forall j :: 0 <= j < k ==> !MatchesAt(s, i, alts[j])
    ensures MatchField(s, i, alts) == Some(Token(DigitsValue(s[i..i + |alts[k]|]), i + |alts[k]|))
    decreases k
  {
    if k > 0 {
      assert forall j :: 0 <= j < k - 1 ==> alts[1..][j] == alts[j + 1];
      FirstMatch(s, i, alts[1..], k - 1);
    }
  }

  /** Two digits whose value lies in `lo..hi` are matched whole by the alternatives of a directive. */
  lemma TwoDigitsMatched(s: string, i: nat, alts: seq<seq<CharClass>>, k: nat, v: nat)
    requires v < 100 && i + 2 <= |s| && s[i..i + 2] == Pad2(v)
    requires k < |alts| && |alts[k]| == 2 && MatchesAt(s, i, alts[k])
    requires forall j :: 0 <= j < k ==> !MatchesAt(s, i, alts[j])
    ensures MatchField(s, i, alts) == Some(Token(v, i + 2))
  {
    FirstMatch(s, i, alts, k);
  }

  lemma MonthMatched(s: string, i: nat, v: nat)
    requires 1 <= v <= 12 && i + 2 <= |s| && s[i..i + 2] == Pad2(v)
    ensures MatchField(s, i, MONTH) == Some(Token(v, i + 2))
  {
    assert s[i] == Pad2(v)[0] && s[i + 1] == Pad2(v)[1];
    if v >= 10 {
      TwoDigitsMatched(s, i, MONTH, 0, v);
    } else {
      assert !InClass(s[i], MONTH[0][0]);
      TwoDigitsMatched(s, i, MONTH, 1, v);
    }
  }

  lemma DayMatched(s: string, i: nat, v: nat)
    requires 1 <= v <= 31 && i + 2 <= |s| && s[i..i + 2] == Pad2(v)
    ensures MatchField(s, i, DAY) == Some(Token(v, i + 2))
  {
    assert s[i] == Pad2(v)[0] && s[i + 1] == Pad2(v)[1];
    if v >= 30 {
      TwoDigitsMatched(s, i, DAY, 0, v);
    } else if v >= 10 {
      assert !InClass(s[i], DAY[0][0]);
      TwoDigitsMatched(s, i, DAY, 1, v);
    } else {
      assert !InClass(s[i], DAY[0][0]) && !InClass(s[i], DAY[1][0]);
      TwoDigitsMatched(s, i, DAY, 2, v);
    }
  }

  lemma HourMatched(s: string, i: nat, v: nat)
    requires v <= 23 && i + 2 <= |s| && s[i..i + 2] == Pad2(v)
    ensures MatchField(s, i, HOUR) == Some(Token(v, i + 2))
  {
    assert s[i] == Pad2(v)[0] && s[i + 1] == Pad2(v)[1];
    if v >= 20 {
      TwoDigitsMatched(s, i, HOUR, 0, v);
    } else {
      assert !InClass(s[i], HOUR[0][0]);
      TwoDigitsMatched(s, i, HOUR, 1, v);
    }
  }

  /** Minutes and seconds below 60 are matched by `[0-5]\d`, the only two-digit choice open to them. */
  lemma SexagesimalMatched(s: string, i: nat, alts: seq<seq<CharClass>>, v: nat)
    requires alts == MINUTE || alts == SECOND
    requires v <= 59 && i + 2 <= |s| && s[i..i + 2] == Pad2(v)
    ensures MatchField(s, i, alts) == Some(Token(v, i + 2))
  {
    assert s[i] == Pad2(v)[0] && s[i + 1] == Pad2(v)[1];
    if alts == MINUTE {
      TwoDigitsMatched(s, i, alts, 0, v);
    } else {
      assert !InClass(s[i], SECOND[0][0]);
      TwoDigitsMatched(s, i, alts, 1, v);
    }
  }

  /**
   * Every date and time `datetime` can hold, written in any of the formats,
   * is accepted by that format and read back unchanged.
   */
  lemma RenderRoundTrip(dt: DateTime, f: Format)
    requires ValidDateTime(dt)
    ensures ParseWith(Render(dt, f), f) == Some(dt)
  {
    var date := RenderDate(dt.year, dt.month, dt.day, f.dateSep);
    var sep := SeparatorText(f.timeSep);
    var time := RenderTime(dt.hour, dt.minute, dt.second);
    var s := Render(dt, f);
    ConcatAssoc(date, sep, time);
    DateRoundTrip(dt.year, dt.month, dt.day, f.dateSep, sep + time);
    assert Separator(s, 10, f.timeSep) == Some(11) by {
      assert s[10] == sep[0] && s[11] == time[0];
      assert !IsSpace(s[11]);
    }
    TimeRoundTrip(date + sep, dt.hour, dt.minute, dt.second);
  }

  /** A date written as `%Y<sep>%m<sep>%d` reads back as that date, whatever follows it. */
  lemma DateRoundTrip(year: nat, month: nat, day: nat, sep: char, rest: string)
    requires 1 <= year <= 9999 && 1 <= month <= 12 && 1 <= day <= 31
    ensures ParseDate(RenderDate(year, month, day, sep) + rest, sep) == Some(Date(year, month, day, 10))
  {
    var s := RenderDate(year, month, day, sep) + rest;
    assert s[..4] == Pad4(year);
    assert s[4] == sep && s[7] == sep;
    assert MatchField(s, 0, YEAR) == Some(Token(year, 4)) by {
      assert forall j :: 0 <= j < 4 ==> IsDigit(s[j]);
      FirstMatch(s, 0, YEAR, 0);
    }
    assert s[5..7] == Pad2(month) && s[8..10] == Pad2(day);
    MonthMatched(s, 5, month);
    DayMatched(s, 8, day);
  }

  /** A time written as `%H:%M:%S` after 11 characters reads back as that time. */
  lemma TimeRoundTrip(p: string, hour: nat, minute: nat, second: nat)
    requires |p| == 11 && hour <= 23 && minute <= 59 && second <= 59
    ensures ParseTime(p + RenderTime(hour, minute, second), 11) == Some(Time(hour, minute, second))
  {
    var s := p + RenderTime(hour, minute, second);
    assert s[13] == ':' && s[16] == ':' && |s| == 19;
    assert s[11..13] == Pad2(hour) && s[14..16] == Pad2(minute) && s[17..19] == Pad2(second);
    HourMatched(s, 11, hour);
    SexagesimalMatched(s, 14, MINUTE, minute);
    SexagesimalMatched(s, 17, SECOND, second);
  }

  // ---------------------------------------------------------------------------
  // The formats between them

  /** No text parses under two of the formats: they differ in the date separator or in what follows the date. */
  lemma FormatsExclusive(s: string, j: nat, k: nat)
    requires j < k < |TIMESTAMP_FORMATS|
    ensures ParseWith(s, TIMESTAMP_FORMATS[j]).None? || ParseWith(s, TIMESTAMP_FORMATS[k]).None?
  {
    DistinctFormats(s, TIMESTAMP_FORMATS[j], TIMESTAMP_FORMATS[k]);
  }

  /** Two formats with different date separators, or one with a blank and one with a 'T', accept no common text. */
  lemma DistinctFormats(s: string, f: Format, g: Format)
    requires f.dateSep != g.dateSep || (f.timeSep == Blank && g.timeSep == Letter('T'))
    ensures ParseWith(s, f).None? || ParseWith(s, g).None?
  {
    if f.dateSep != g.dateSep {
      DateSeparatorDecides(s, f.dateSep, g.dateSep);
    } else {
      var date := ParseDate(s, f.dateSep);
      if date.Some? {
        TimeSeparatorDecides(s, date.value.end);
      }
    }
  }

  /** The fifth character decides the date separator. */
  lemma DateSeparatorDecides(s: string, a: char, b: char)
    requires a != b
    ensures ParseDate(s, a).None? || ParseDate(s, b).None?
  {
  }

  /** A blank and a 'T' cannot both follow the date. */
  lemma TimeSeparatorDecides(s: string, i: nat)
    ensures Separator(s, i, Blank).None? || Separator(s, i, Letter('T')).None?
  {
    assert !IsSpace(LowerChar('T'));
  }

  /**
   * A text is a timestamp exactly when one of the formats parses it, and then
   * that format is the only one and the one the ordered search stops at.
   */
  lemma TimestampFormatUnique(s: string)
    ensures ValidTimestamp(s) <==> exists k :: 0 <= k < |TIMESTAMP_FORMATS| && ParseWith(s, TIMESTAMP_FORMATS[k]).Some?
    ensures ValidTimestamp(s) ==> forall k :: 0 <= k < |TIMESTAMP_FORMATS| && ParseWith(s, TIMESTAMP_FORMATS[k]).Some? ==>
      FirstFormat(s, TIMESTAMP_FORMATS) == Some(k)
  {
    FirstFormatMeaning(s, TIMESTAMP_FORMATS);
    if ValidTimestamp(s) {
      var first := FirstFormat(s, TIMESTAMP_FORMATS).value;
      forall k | 0 <= k < |TIMESTAMP_FORMATS| && ParseWith(s, TIMESTAMP_FORMATS[k]).Some?
        ensures first == k
      {
        if first < k { FormatsExclusive(s, first, k); }
      }
    }
  }

  /** `str()` of an integer is never a timestamp: its fifth character, if any, is a digit. */
  lemma IntegerTextNotTimestamp(i: int)
    ensures !ValidTimestamp(IntText(i))
  {
    var s := IntText(i);
    FirstFormatMeaning(s, TIMESTAMP_FORMATS);
    forall k | 0 <= k < |TIMESTAMP_FORMATS|
      ensures ParseWith(s, TIMESTAMP_FORMATS[k]).None?
    {
      if 4 < |s| { assert IsDigit(s[4]); }
    }
  }

  // ---------------------------------------------------------------------------
  // Concrete texts

  /** A day-first date with the year last is not one of the formats. */
  lemma DayFirstRejected()
    ensures !ValidTimestamp("13/01/2024")
  {
    var s := "13/01/2024";
    assert !MatchesAt(s, 0, YEAR[0]) by { assert !InClass(s[2], YEAR[0][2]); }
    assert MatchField(s, 0, YEAR).None?;
  }

  lemma YearTexts()
    ensures Pad4(2024) == "2024" && Pad4(2023) == "2023"
  {
    assert Pad2(20) == "20" && Pad2(24) == "24" && Pad2(23) == "23";
    assert Pad4(2024) == Pad2(20) + Pad2(24);
    assert Pad4(2023) == Pad2(20) + Pad2(23);
  }

  lemma ExampleDates()
    ensures RenderDate(2024, 1, 15, '-') == "2024-01-15"
    ensures RenderDate(2023, 2, 29, '-') == "2023-02-29"
  {
    YearTexts();
    assert Pad2(1) == "01" && Pad2(15) == "15" && Pad2(2) == "02" && Pad2(29) == "29";
  }

  lemma ExampleTimes()
    ensures RenderTime(10, 30, 0) == "10:30:00"
    ensures RenderTime(10, 0, 0) == "10:00:00"
  {
    assert Pad2(10) == "10" && Pad2(30) == "30" && Pad2(0) == "00";
  }

  lemma ExampleRendered()
    ensures Render(DateTime(2024, 1, 15, 10, 30, 0), TIMESTAMP_FORMATS[0]) == "2024-01-15" + " " + "10:30:00"
    ensures Render(DateTime(2024, 1, 15, 10, 30, 0), TIMESTAMP_FORMATS[1]) == "2024-01-15" + "T" + "10:30:00"
  {
    ExampleDates();
    ExampleTimes();
  }

  lemma SpaceSeparatedAccepted()
    ensures FirstFormat("2024-01-15" + " " + "10:30:00", TIMESTAMP_FORMATS) == Some(0)
  {
    ExampleRendered();
    RenderRoundTrip(DateTime(2024, 1, 15, 10, 30, 0), TIMESTAMP_FORMATS[0]);
  }

  lemma IsoSeparatedAccepted()
    ensures FirstFormat("2024-01-15" + "T" + "10:30:00", TIMESTAMP_FORMATS) == Some(1)
  {
    ExampleRendered();
    RenderRoundTrip(DateTime(2024, 1, 15, 10, 30, 0), TIMESTAMP_FORMATS[1]);
    TimestampFormatUnique("2024-01-15" + "T" + "10:30:00");
  }

  lemma NonLeapDate()
    ensures ParseDate("2023-02-29" + " " + "10:00:00", '-') == Some(Date(2023, 2, 29, 10))
  {
    ExampleDates();
    DateRoundTrip(2023, 2, 29, '-', " " + "10:00:00");
    ConcatAssoc("2023-02-29", " ", "10:00:00");
  }

  /** The expressions let 29 through as a day; the `datetime` constructor rejects it for February 2023. */
  lemma NonLeapDayRejected()
    ensures !ValidTimestamp("2023-02-29" + " " + "10:00:00")
  {
    var s := "2023-02-29" + " " + "10:00:00";
    NonLeapDate();
    assert DaysInMonth(2023, 2) == 28;
    assert s[10] == ' ';
    assert ParseWith(s, TIMESTAMP_FORMATS[0]).None?;
    assert ParseWith(s, TIMESTAMP_FORMATS[1]).None? by {
      assert LowerChar(s[10]) != LowerChar('T');
    }
    assert ParseWith(s, TIMESTAMP_FORMATS[2]).None?;
    FirstFormatMeaning(s, TIMESTAMP_FORMATS);
  }
}
