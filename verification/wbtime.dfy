/** `parse_wb_time` (src/entity.rs): the Wikibase time string
    `[+-]YYYY[-MM[-DD]][THH:MM:SS...]` to a UTC instant, with chrono's
    `Utc.ymd_opt` as a proleptic-Gregorian validity check and `and_hms` as a
    call that panics on an out-of-range time of day. */
module WbTime {
  import opened Wrappers
  import opened Strings

  /** A chrono `DateTime<Utc>`: a proleptic-Gregorian date with astronomical
      year numbering (year 0 is 1 BCE) and a time of day. */
  datatype Instant = Instant(year: int, month: nat, day: nat, hour: nat, minute: nat, second: nat)

  /** The years chrono can represent (its `MIN_YEAR`/`MAX_YEAR`). */
  const MinYear: int := -262144
  const MaxYear: int := 262143

  predicate IsLeapYear(y: int) {
    y % 4 == 0 && (y % 100 != 0 || y % 400 == 0)
  }

  function DaysInMonth(y: int, m: nat): nat
    requires 1 <= m <= 12
  {
    if m == 2 then (if IsLeapYear(y) then 29 else 28)
    else if m == 4 || m == 6 || m == 9 || m == 11 then 30
    else 31
  }

  /** `Utc.ymd_opt(y, m, d)` is `LocalResult::Single` (UTC never gives an
      ambiguous date, so it is otherwise `None`). */
  predicate ValidDate(y: int, m: nat, d: nat) {
    MinYear <= y <= MaxYear && 1 <= m <= 12 && 1 <= d <= DaysInMonth(y, m)
  }

  /** `and_hms(h, m, s)` does not panic. */
  predicate ValidTimeOfDay(h: nat, m: nat, s: nat) {
    h < 24 && m < 60 && s < 60
  }

  predicate ValidInstant(t: Instant) {
    ValidDate(t.year, t.month, t.day) && ValidTimeOfDay(t.hour, t.minute, t.second)
  }

  /** A month or day field: a value of 0 or one that does not parse as a
      `u32` counts as unspecified, and an unspecified field is 1. */
  function FieldOrOne(field: string): (v: u32)
    ensures v >= 1
    ensures ParseU32(field).Some? && ParseU32(field).value != 0 ==> v == ParseU32(field).value
    ensures ParseU32(field).None? || ParseU32(field).value == 0 ==> v == 1
  {
    match ParseU32(field)
    case Some(x) => if x == 0 then 1 else x
    case None => 1
  }

  /** The month (i = 1) or day (i = 2) from the dash-separated date pieces. */
  function DateField(parts: seq<string>, i: nat): (v: u32)
    ensures v >= 1
  {
    if i < |parts| then FieldOrOne(parts[i]) else 1
  }

  // ---------------------------------------------------------------------------
  // Byte-index slicing

  /** Bytes taken by a string in UTF-8. */
  function ByteWidth(s: string): nat
    decreases |s|
  {
    if |s| == 0 then 0 else Utf8Len(s[0]) + ByteWidth(s[1..])
  }

  /** `&field[0..2]`: the chars filling the first two bytes. It panics when
      the field is shorter than two bytes or byte 2 falls inside a char. */
  function SecondsSlice(field: string): (r: Outcome<string>)
    ensures !r.Fail?
    ensures r.Ok? ==> r.value <= field && ByteWidth(r.value) == 2
    ensures r.Panic? ==> forall k :: 0 <= k <= |field| ==> ByteWidth(field[..k]) != 2
  {
    if |field| == 0 then
      assert field[..0] == [];
      Panic
    else if Utf8Len(field[0]) == 1 then
      if |field| == 1 then
        SmallPrefixWidths(field);
        Panic
      else if Utf8Len(field[1]) != 1 then
        SmallPrefixWidths(field);
        Panic
      else
        SmallPrefixWidths(field);
        Ok(field[..2])
    else if Utf8Len(field[0]) == 2 then
      SmallPrefixWidths(field);
      Ok(field[..1])
    else
      SmallPrefixWidths(field);
      Panic
  }

  /** Widths of the prefixes of a non-empty string: the first char alone, and
      every longer prefix at least the first two chars. */
  lemma SmallPrefixWidths(s: string)
    requires |s| >= 1
    ensures ByteWidth(s[..0]) == 0
    ensures ByteWidth(s[..1]) == Utf8Len(s[0])
    ensures |s| >= 2 ==> ByteWidth(s[..2]) == Utf8Len(s[0]) + Utf8Len(s[1])
    ensures forall k :: 2 <= k <= |s| ==> ByteWidth(s[..k]) >= Utf8Len(s[0]) + Utf8Len(s[1])
  {
    assert s[..0] == [];
    assert s[..1][1..] == [];
    if |s| >= 2 {
      assert s[..2][1..] == [s[1]];
      assert [s[1]][1..] == [];
    }
    forall k | 2 <= k <= |s|
      ensures ByteWidth(s[..k]) >= Utf8Len(s[0]) + Utf8Len(s[1])
    {
      assert s[..k][1..] == s[1..k];
      assert s[1..k][1..] == s[2..k];
    }
  }

  // ---------------------------------------------------------------------------
  // The parser

  /** The `HH:MM:SS...` piece after `T`: hour and minute must be present and
      parse, and the seconds come from the first two bytes of the third field. */
  function ParseClock(clock: string): (r: Outcome<(u32, u32, u32)>)
    ensures r.Ok? ==> |Split(clock, ':')| >= 3
    ensures r.Ok? ==> ParseU32(Split(clock, ':')[0]) == Some(r.value.0)
    ensures r.Ok? ==> ParseU32(Split(clock, ':')[1]) == Some(r.value.1)
    ensures r.Ok? ==> |Split(clock, ':')[2]| >= 2 && ParseU32(Split(clock, ':')[2][..2]) == Some(r.value.2)
    ensures |Split(clock, ':')| < 3 ==> r == Fail
    ensures ParseU32(Split(clock, ':')[0]).None? ==> r == Fail
    ensures |Split(clock, ':')| >= 2 && ParseU32(Split(clock, ':')[1]).None? ==> r == Fail
    ensures r.Panic? <==> (|Split(clock, ':')| >= 3 && ParseU32(Split(clock, ':')[0]).Some?
      && ParseU32(Split(clock, ':')[1]).Some? && SecondsSlice(Split(clock, ':')[2]).Panic?)
    ensures r.Ok? <==> (|Split(clock, ':')| >= 3 && ParseU32(Split(clock, ':')[0]).Some?
      && ParseU32(Split(clock, ':')[1]).Some? && SecondsSlice(Split(clock, ':')[2]).Ok?
      && ParseU32(SecondsSlice(Split(clock, ':')[2]).value).Some?)
  {
    var colon := Split(clock, ':');
    match ParseU32(colon[0])
    case None => Fail
    case Some(hour) =>
      if |colon| < 2 then Fail
      else
        match ParseU32(colon[1])
        case None => Fail
        case Some(minute) =>
          if |colon| < 3 then Fail
          else
            match SecondsSlice(colon[2])
            case Panic => Panic
            case Fail => Fail
            case Ok(secs) =>
              match ParseU32(secs)
              case None => Fail
              case Some(second) =>
                SecondsAreTwoChars(colon[2], secs);
                Ok((hour, minute, second))
  }

  /** A seconds slice that parses as a number is the first two chars. */
  lemma SecondsAreTwoChars(field: string, secs: string)
    requires SecondsSlice(field) == Ok(secs) && ParseU32(secs).Some?
    ensures |field| >= 2 && secs == field[..2]
  {
  }

  /** `date.and_hms(hour, min, sec)`: panics on an impossible time of day. */
  function AndHms(year: int, month: nat, day: nat, hour: nat, minute: nat, second: nat): (r: Outcome<Instant>)
    ensures !r.Fail?
    ensures r.Ok? <==> ValidTimeOfDay(hour, minute, second)
    ensures r.Ok? ==> r.value == Instant(year, month, day, hour, minute, second)
  {
    if ValidTimeOfDay(hour, minute, second) then Ok(Instant(year, month, day, hour, minute, second)) else Panic
  }

  /** The date piece (before any `T`): the year parses as an `i32` and is
      negated unless the sign was `+`; month and day default to 1; the date
      must exist in chrono's calendar. `None` is the function's `None`. */
  function ParseDate(isCe: bool, date: string): (r: Option<(i32, u32, u32)>)
    ensures r.Some? ==> ValidDate(r.value.0, r.value.1, r.value.2)
    ensures r.Some? && isCe ==> r.value.0 >= 0
    ensures r.Some? && !isCe ==> r.value.0 <= 0
    ensures r.Some? ==> ParseI32(Split(date, '-')[0]).Some?
    ensures r.Some? ==> var y := ParseI32(Split(date, '-')[0]).value;
      r.value.0 == if isCe then y else 0 - y
    ensures r.Some? ==> r.value.1 == DateField(Split(date, '-'), 1) && r.value.2 == DateField(Split(date, '-'), 2)
    ensures r.None? <==> (ParseI32(Split(date, '-')[0]).None?
      || var y := ParseI32(Split(date, '-')[0]).value;
         !ValidDate(if isCe then y else 0 - y, DateField(Split(date, '-'), 1), DateField(Split(date, '-'), 2)))
  {
    var dashParts := Split(date, '-');
    YmdOpt(SignedYear(isCe, dashParts[0]), DateField(dashParts, 1), DateField(dashParts, 2))
  }

  /** The year piece with the era applied. The piece holds no dash, so the
      parsed value is not negative and negating it cannot overflow. */
  function SignedYear(isCe: bool, piece: string): (r: Option<i32>)
    requires '-' !in piece
    ensures r.Some? <==> ParseI32(piece).Some?
    ensures r.Some? && isCe ==> r.value >= 0
    ensures r.Some? && !isCe ==> r.value <= 0
    ensures r.Some? ==> r.value == if isCe then ParseI32(piece).value else 0 - ParseI32(piece).value
  {
    match ParseI32(piece)
    case None => None
    case Some(unsigned) => Some(if isCe then unsigned else 0 - unsigned)
  }

  /** `Utc.ymd_opt`: the date when the year was read and the three fields
      name a day of the calendar. */
  function YmdOpt(year: Option<i32>, month: u32, day: u32): (r: Option<(i32, u32, u32)>)
    ensures r.Some? <==> year.Some? && ValidDate(year.value, month, day)
    ensures r.Some? ==> r.value == (year.value, month, day)
  {
    match year
    case None => None
    case Some(y) => if ValidDate(y, month, day) then Some((y, month, day)) else None
  }

  /** `parse_wb_time`. */
  function ParseWbTime(time: string): (r: Outcome<Instant>)
    ensures |time| == 0 ==> r == Fail
    ensures |time| > 0 && Utf8Len(time[0]) > 1 ==> r == Panic
    ensures r.Ok? ==> ValidInstant(r.value)
    ensures r.Ok? && time[0] == '+' ==> r.value.year >= 0
    ensures r.Ok? && time[0] != '+' ==> r.value.year <= 0
    ensures r.Ok? && |Split(time[1..], 'T')| != 2 ==> r.value.hour == 0 && r.value.minute == 0 && r.value.second == 0
    ensures r.Ok? && |Split(time[1..], 'T')| == 2 ==> ParseClock(Split(time[1..], 'T')[1]).Ok?
    ensures |time| > 0 && Utf8Len(time[0]) == 1 && ParseDate(time[0] == '+', Split(time[1..], 'T')[0]).None? ==> r == Fail
    ensures |time| > 0 && Utf8Len(time[0]) == 1 && |Split(time[1..], 'T')| != 2 ==>
      var d := ParseDate(time[0] == '+', Split(time[1..], 'T')[0]);
      d.Some? ==> r == Ok(Instant(d.value.0, d.value.1, d.value.2, 0, 0, 0))
    ensures |time| > 0 && Utf8Len(time[0]) == 1 && |Split(time[1..], 'T')| == 2 ==>
      var d := ParseDate(time[0] == '+', Split(time[1..], 'T')[0]);
      var c := ParseClock(Split(time[1..], 'T')[1]);
      d.Some? ==> r == match c
        case Ok(hms) => AndHms(d.value.0, d.value.1, d.value.2, hms.0, hms.1, hms.2)
        case Fail => Fail
        case Panic => Panic
  {
    if |time| == 0 then Fail
    else if Utf8Len(time[0]) != 1 then Panic
    else
      var timeParts := Split(time[1..], 'T');
      match ParseDate(time[0] == '+', timeParts[0])
      case None => Fail
      case Some((year, month, day)) =>
        if |timeParts| == 2 then
          match ParseClock(timeParts[1])
          case Ok((hour, minute, second)) => AndHms(year, month, day, hour, minute, second)
          case Fail => Fail
          case Panic => Panic
        else
          Ok(Instant(year, month, day, 0, 0, 0))
  }

  // ---------------------------------------------------------------------------
  // The canonical form and the round trip

  function DatePart(t: Instant): string
    requires ValidInstant(t)
  {
    YearDigits(t) + "-" + Pad2(t.month) + "-" + Pad2(t.day)
  }

  /** The digits of the year without its sign. */
  function YearDigits(t: Instant): string {
    NatToString(if t.year >= 0 then t.year else -t.year)
  }

  function ClockPart(t: Instant): string
    requires ValidInstant(t)
  {
    Pad2(t.hour) + ":" + Pad2(t.minute) + ":" + Pad2(t.second) + "Z"
  }

  /** The sign that opens the Wikibase form of a year. */
  function EraSign(year: int): char {
    if year >= 0 then '+' else '-'
  }

  /** The Wikibase form of an instant, e.g. `+2001-12-31T00:00:00Z`. */
  function FormatWbTime(t: Instant): string
    requires ValidInstant(t)
  {
    [EraSign(t.year)] + (DatePart(t) + "T" + ClockPart(t))
  }

  lemma DigitsExclude(s: string, c: char)
    requires AllDigits(s) && !IsDigit(c)
    ensures c !in s
  {
  }

  lemma Pad2Parses(n: nat)
    requires 1 <= n < 100
    ensures FieldOrOne(Pad2(n)) == n
    ensures ParseU32(Pad2(n)) == Some(n)
  {
  }

  /** The canonical date piece reads back as the instant's date. */
  lemma DatePartParses(t: Instant)
    requires ValidInstant(t)
    ensures ParseDate(t.year >= 0, DatePart(t)) == Some((t.year, t.month, t.day))
  {
    DatePartPieces(t);
    YearDigitsParse(t);
    Pad2Parses(t.month);
    Pad2Parses(t.day);
    var dashParts := Split(DatePart(t), '-');
    assert DateField(dashParts, 1) == t.month;
    assert DateField(dashParts, 2) == t.day;
    assert YmdOpt(Some(t.year), t.month, t.day) == Some((t.year, t.month, t.day));
  }

  /** The date piece splits on dashes into year digits, month and day. */
  lemma DatePartPieces(t: Instant)
    requires ValidInstant(t)
    ensures Split(DatePart(t), '-') == [YearDigits(t), Pad2(t.month), Pad2(t.day)]
    ensures '-' !in YearDigits(t)
  {
    DigitsExclude(YearDigits(t), '-');
    DigitsExclude(Pad2(t.month), '-');
    DigitsExclude(Pad2(t.day), '-');
    SplitThree(YearDigits(t), Pad2(t.month), Pad2(t.day), '-');
  }

  /** The year digits read back, with the era, as the year. */
  lemma YearDigitsParse(t: Instant)
    requires ValidInstant(t)
    ensures '-' !in YearDigits(t)
    ensures SignedYear(t.year >= 0, YearDigits(t)) == Some(t.year)
  {
    var y: nat := if t.year >= 0 then t.year else -t.year;
    var ys := YearDigits(t);
    DigitsExclude(ys, '-');
    ParseNatToString(y, 0x8000_0000);
    assert ys[0] != '-' by { assert IsDigit(ys[0]); }
    assert ParseI32(ys) == Some(y);
  }

  /** The canonical time of day reads back as the instant's time of day. */
  lemma ClockPartParses(t: Instant)
    requires ValidInstant(t)
    ensures ParseClock(ClockPart(t)) == Ok((t.hour, t.minute, t.second))
  {
    var hs, mis, ss := Pad2(t.hour), Pad2(t.minute), Pad2(t.second);
    DigitsExclude(hs, ':'); DigitsExclude(mis, ':'); DigitsExclude(ss, ':');
    assert ':' !in ss + "Z";
    assert ClockPart(t) == hs + [':'] + mis + [':'] + (ss + "Z");
    SplitThree(hs, mis, ss + "Z", ':');
    var colon := Split(ClockPart(t), ':');
    assert colon == [hs, mis, ss + "Z"];
    assert ParseU32(hs) == Some(t.hour);
    assert ParseU32(mis) == Some(t.minute);
    assert (ss + "Z")[..2] == ss;
    assert SecondsSlice(ss + "Z") == Ok(ss);
    assert ParseU32(ss) == Some(t.second);
  }

  /** The canonical form splits at its one `T` into date and time of day. */
  lemma FormatPieces(t: Instant)
    requires ValidInstant(t)
    ensures |FormatWbTime(t)| > 0 && Utf8Len(FormatWbTime(t)[0]) == 1
    ensures (FormatWbTime(t)[0] == '+') == (t.year >= 0)
    ensures Split(FormatWbTime(t)[1..], 'T') == [DatePart(t), ClockPart(t)]
  {
    var y: nat := if t.year >= 0 then t.year else -t.year;
    var ys, ms, ds := NatToString(y), Pad2(t.month), Pad2(t.day);
    var hs, mis, ss := Pad2(t.hour), Pad2(t.minute), Pad2(t.second);
    DigitsExclude(ys, 'T'); DigitsExclude(ms, 'T'); DigitsExclude(ds, 'T');
    DigitsExclude(hs, 'T'); DigitsExclude(mis, 'T'); DigitsExclude(ss, 'T');
    assert 'T' !in DatePart(t);
    assert 'T' !in ClockPart(t);
    assert FormatWbTime(t)[1..] == DatePart(t) + ['T'] + ClockPart(t);
    SplitTwo(DatePart(t), ClockPart(t), 'T');
  }

  /** Parsing the canonical form of any representable instant gives it back. */
  lemma ParseFormatRoundTrip(t: Instant)
    requires ValidInstant(t)
    ensures ParseWbTime(FormatWbTime(t)) == Ok(t)
  {
    FormatPieces(t);
    DatePartParses(t);
    ClockPartParses(t);
  }

  // ---------------------------------------------------------------------------
  // What the date part can and cannot change

  /** The date pieces and the `T`-split of `sign + date + rest`, where the
      date holds no `T` and `rest` is empty or starts the time of day. */
  lemma TimePieces(sign: char, date: string, rest: string)
    requires 'T' !in date
    requires rest == [] || rest[0] == 'T'
    ensures ([sign] + date + rest)[1..] == date + rest
    ensures Split(date + rest, 'T')[0] == date
    ensures Split(date + rest, 'T')[1..] == if rest == [] then [] else Split(rest[1..], 'T')
  {
    assert ([sign] + date + rest)[1..] == date + rest;
    if rest == [] {
      assert date + rest == date;
      SplitWithoutSep(date, 'T');
    } else {
      assert date + rest == date + ['T'] + rest[1..];
      SplitAtFirstSep(date, 'T', rest[1..]);
    }
  }

  /** Only what the date piece decodes to matters: two date pieces that decode
      alike parse alike, whatever follows them. */
  lemma DateOnlyThroughFields(sign: char, date1: string, date2: string, rest: string)
    requires Utf8Len(sign) == 1
    requires 'T' !in date1 && 'T' !in date2
    requires rest == [] || rest[0] == 'T'
    requires ParseDate(sign == '+', date1) == ParseDate(sign == '+', date2)
    ensures ParseWbTime([sign] + date1 + rest) == ParseWbTime([sign] + date2 + rest)
  {
    TimePieces(sign, date1, rest);
    TimePieces(sign, date2, rest);
    var p1 := Split(date1 + rest, 'T');
    var p2 := Split(date2 + rest, 'T');
    assert |p1| == |p2| by {
      assert |p1| == 1 + |p1[1..]|;
      assert |p2| == 1 + |p2[1..]|;
    }
    assert |p1| == 2 ==> p1[1] == p2[1] by {
      if |p1| == 2 {
        assert p1[1] == p1[1..][0];
        assert p2[1] == p2[1..][0];
      }
    }
  }

  /** The pieces of `year-01-01`: month and day read as 1. */
  lemma FirstOfJanuary(year: string)
    requires '-' !in year
    ensures Split(year + "-" + "01" + "-" + "01", '-') == [year, "01", "01"]
    ensures DateField(Split(year + "-" + "01" + "-" + "01", '-'), 1) == 1
    ensures DateField(Split(year + "-" + "01" + "-" + "01", '-'), 2) == 1
  {
    SplitThree(year, "01", "01", '-');
    OneParses();
  }

  lemma NoTimeInDefaultDate(year: string)
    requires 'T' !in year
    ensures 'T' !in year + "-" + "01" + "-" + "01"
  {
    assert AllDigits("01");
    DigitsExclude("01", 'T');
  }

  lemma OneParses()
    ensures FieldOrOne("01") == 1
  {
    var s := "01";
    assert AllDigits(s);
    assert s[..1] == "0" && s[..1][..0] == [];
    assert DigitsValue(s) == 1;
    assert ParseUnsigned(s, U32Bound) == Some(1);
  }

  /** A zero or unparseable month and day mean "unspecified", which is 1. */
  lemma UnspecifiedDateFields(isCe: bool, year: string, month: string, day: string)
    requires '-' !in year && '-' !in month && '-' !in day
    requires FieldOrOne(month) == 1 && FieldOrOne(day) == 1
    ensures ParseDate(isCe, year + "-" + month + "-" + day) == ParseDate(isCe, year + "-" + "01" + "-" + "01")
  {
    SplitThree(year, month, day, '-');
    FirstOfJanuary(year);
    SameFieldsSameDate(isCe, year + "-" + month + "-" + day, year + "-" + "01" + "-" + "01");
  }

  /** A date is read through its year piece and its month and day fields
      only. */
  lemma SameFieldsSameDate(isCe: bool, date1: string, date2: string)
    requires Split(date1, '-')[0] == Split(date2, '-')[0]
    requires DateField(Split(date1, '-'), 1) == DateField(Split(date2, '-'), 1)
    requires DateField(Split(date1, '-'), 2) == DateField(Split(date2, '-'), 2)
    ensures ParseDate(isCe, date1) == ParseDate(isCe, date2)
  {
    assert SignedYear(isCe, Split(date1, '-')[0]) == SignedYear(isCe, Split(date2, '-')[0]);
  }

  /** A date that stops after the year has month and day 1. */
  lemma MissingDateFields(isCe: bool, year: string)
    requires '-' !in year
    ensures ParseDate(isCe, year) == ParseDate(isCe, year + "-" + "01" + "-" + "01")
  {
    SplitWithoutSep(year, '-');
    FirstOfJanuary(year);
    SameFieldsSameDate(isCe, year, year + "-" + "01" + "-" + "01");
  }

  /** A date that stops after the month has day 1. */
  lemma MissingDayField(isCe: bool, year: string, month: string)
    requires '-' !in year && '-' !in month
    ensures ParseDate(isCe, year + "-" + month) == ParseDate(isCe, year + "-" + month + "-" + "01")
  {
    SplitTwo(year, month, '-');
    SplitThree(year, month, "01", '-');
    Pad2Parses(1);
    assert Pad2(1) == "01";
    SameFieldsSameDate(isCe, year + "-" + month, year + "-" + month + "-" + "01");
  }

  /** `+1979-00-00...` reads as `+1979-01-01...`. */
  lemma UnspecifiedMonthAndDay(sign: char, year: string, month: string, day: string, rest: string)
    requires Utf8Len(sign) == 1
    requires '-' !in year && 'T' !in year
    requires '-' !in month && 'T' !in month && '-' !in day && 'T' !in day
    requires FieldOrOne(month) == 1 && FieldOrOne(day) == 1
    requires rest == [] || rest[0] == 'T'
    ensures ParseWbTime([sign] + (year + "-" + month + "-" + day) + rest)
         == ParseWbTime([sign] + (year + "-" + "01" + "-" + "01") + rest)
  {
    UnspecifiedDateFields(sign == '+', year, month, day);
    NoTimeInDefaultDate(year);
    DateOnlyThroughFields(sign, year + "-" + month + "-" + day, year + "-" + "01" + "-" + "01", rest);
  }

  /** `-12561` reads as `-12561-01-01`, and `+2001-12` as `+2001-12-01`. */
  lemma MissingMonthAndDay(sign: char, year: string, month: string, rest: string)
    requires Utf8Len(sign) == 1
    requires '-' !in year && 'T' !in year && '-' !in month && 'T' !in month
    requires rest == [] || rest[0] == 'T'
    ensures ParseWbTime([sign] + year + rest) == ParseWbTime([sign] + (year + "-" + "01" + "-" + "01") + rest)
    ensures ParseWbTime([sign] + (year + "-" + month) + rest) == ParseWbTime([sign] + (year + "-" + month + "-" + "01") + rest)
  {
    MissingDateFields(sign == '+', year);
    NoTimeInDefaultDate(year);
    DateOnlyThroughFields(sign, year, year + "-" + "01" + "-" + "01", rest);
    MissingDayField(sign == '+', year, month);
    assert 'T' !in year + "-" + month;
    assert 'T' !in year + "-" + month + "-" + "01";
    DateOnlyThroughFields(sign, year + "-" + month, year + "-" + month + "-" + "01", rest);
  }

  /** Any first char other than `+` (that takes one byte) behaves as `-`. */
  lemma AnySignButPlusNegates(sign: char, rest: string)
    requires sign != '+' && Utf8Len(sign) == 1
    ensures ParseWbTime([sign] + rest) == ParseWbTime("-" + rest)
  {
    assert ([sign] + rest)[1..] == rest;
    assert ("-" + rest)[1..] == rest;
  }

  /** The sign only flips the year: when both `+rest` and `-rest` parse, they
      differ in the year's sign alone. */
  lemma SignFlipsYearOnly(rest: string)
    requires ParseWbTime("+" + rest).Ok? && ParseWbTime("-" + rest).Ok?
    ensures ParseWbTime("-" + rest).value.year == -ParseWbTime("+" + rest).value.year
    ensures ParseWbTime("-" + rest).value.(year := 0) == ParseWbTime("+" + rest).value.(year := 0)
  {
    assert ("+" + rest)[1..] == rest;
    assert ("-" + rest)[1..] == rest;
  }

  // ---------------------------------------------------------------------------
  // Shortened forms, and the strings of the crate's `time_parsing` test

  /** A date with no time of day is midnight of that date. */
  lemma {:induction false} DateOnlyParses(t: Instant)
    requires ValidInstant(t) && t.hour == 0 && t.minute == 0 && t.second == 0
    ensures ParseWbTime([EraSign(t.year)] + DatePart(t)) == Ok(t)
  {
    DatePartParses(t);
    DigitsExclude(YearDigits(t), 'T');
    DigitsExclude(Pad2(t.month), 'T');
    DigitsExclude(Pad2(t.day), 'T');
    assert 'T' !in DatePart(t);
    TimePieces(EraSign(t.year), DatePart(t), []);
    assert [EraSign(t.year)] + DatePart(t) + [] == [EraSign(t.year)] + DatePart(t);
  }

  /** `year-month` with no day and no time of day is midnight of the first
      of that month. */
  lemma {:induction false} YearMonthParses(t: Instant)
    requires ValidInstant(t) && t.day == 1 && t.hour == 0 && t.minute == 0 && t.second == 0
    ensures ParseWbTime([EraSign(t.year)] + (YearDigits(t) + "-" + Pad2(t.month))) == Ok(t)
  {
    var ys, ms := YearDigits(t), Pad2(t.month);
    var date := ys + "-" + ms;
    DigitsExclude(ys, 'T'); DigitsExclude(ms, 'T');
    DigitsExclude(ys, '-'); DigitsExclude(ms, '-');
    assert 'T' !in date;
    TimePieces(EraSign(t.year), date, []);
    assert [EraSign(t.year)] + date + [] == [EraSign(t.year)] + date;
    SplitTwo(ys, ms, '-');
    YearDigitsParse(t);
    Pad2Parses(t.month);
    assert DateField(Split(date, '-'), 2) == 1;
  }

  /** A bare year is midnight of its first of January. */
  lemma {:induction false} YearOnlyParses(t: Instant)
    requires ValidInstant(t) && t.month == 1 && t.day == 1 && t.hour == 0 && t.minute == 0 && t.second == 0
    ensures ParseWbTime([EraSign(t.year)] + YearDigits(t)) == Ok(t)
  {
    var ys := YearDigits(t);
    DigitsExclude(ys, 'T');
    DigitsExclude(ys, '-');
    TimePieces(EraSign(t.year), ys, []);
    assert [EraSign(t.year)] + ys + [] == [EraSign(t.year)] + ys;
    SplitWithoutSep(ys, '-');
    YearDigitsParse(t);
  }

  /** Unspecified month and day fields read like the canonical `01`s of a
      first of January. */
  lemma {:induction false} UnspecifiedFieldsAsFirst(t: Instant, month: string, day: string, rest: string)
    requires ValidInstant(t) && t.month == 1 && t.day == 1
    requires '-' !in month && 'T' !in month && '-' !in day && 'T' !in day
    requires FieldOrOne(month) == 1 && FieldOrOne(day) == 1
    requires rest == [] || rest[0] == 'T'
    ensures ParseWbTime([EraSign(t.year)] + (YearDigits(t) + "-" + month + "-" + day) + rest)
         == ParseWbTime([EraSign(t.year)] + DatePart(t) + rest)
  {
    var ys := YearDigits(t);
    DigitsExclude(ys, '-');
    DigitsExclude(ys, 'T');
    assert Pad2(1) == "01";
    UnspecifiedMonthAndDay(EraSign(t.year), ys, month, day, rest);
  }

  /** The canonical form, cut after its date piece. */
  lemma CanonicalAtT(t: Instant)
    requires ValidInstant(t)
    ensures ParseWbTime([EraSign(t.year)] + DatePart(t) + ("T" + ClockPart(t))) == Ok(t)
  {
    assert FormatWbTime(t) == [EraSign(t.year)] + DatePart(t) + ("T" + ClockPart(t));
    ParseFormatRoundTrip(t);
  }

  /** A first of January written with unspecified month and day, as in
      `+1979-00-00T00:00:00Z`, reads as that first of January. */
  lemma {:induction false} UnspecifiedFieldsParse(t: Instant, month: string, day: string)
    requires ValidInstant(t) && t.month == 1 && t.day == 1
    requires '-' !in month && 'T' !in month && '-' !in day && 'T' !in day
    requires FieldOrOne(month) == 1 && FieldOrOne(day) == 1
    ensures ParseWbTime([EraSign(t.year)] + (YearDigits(t) + "-" + month + "-" + day) + ("T" + ClockPart(t))) == Ok(t)
  {
    UnspecifiedFieldsAsFirst(t, month, day, "T" + ClockPart(t));
    CanonicalAtT(t);
  }

  lemma ZeroFieldUnspecified()
    ensures '-' !in "00" && 'T' !in "00" && FieldOrOne("00") == 1
  {
    assert "00"[..1][..0] == [];
  }

  /** `+2001-12-31`, a date with no time of day. */
  lemma TestFullDate(s: string, t: Instant)
    requires s == "+2001-12-31" && t == Instant(2001, 12, 31, 0, 0, 0)
    ensures ParseWbTime(s) == Ok(t)
  {
    assert YearDigits(t) == "2001";
    assert Pad2(12) == "12" && Pad2(31) == "31";
    assert [EraSign(t.year)] + DatePart(t) == s;
    DateOnlyParses(t);
  }

  /** `+2001-12`, a year and month only. */
  lemma TestYearMonth(s: string, t: Instant)
    requires s == "+2001-12" && t == Instant(2001, 12, 1, 0, 0, 0)
    ensures ParseWbTime(s) == Ok(t)
  {
    assert YearDigits(t) == "2001";
    assert Pad2(12) == "12";
    assert s == [EraSign(t.year)] + (YearDigits(t) + "-" + Pad2(t.month));
    YearMonthParses(t);
  }

  /** `-12561`, a bare year before the common era. */
  lemma TestYearOnly(s: string, t: Instant)
    requires s == "-12561" && t == Instant(-12561, 1, 1, 0, 0, 0)
    ensures ParseWbTime(s) == Ok(t)
  {
    assert NatToString(12561) == "12561";
    assert YearDigits(t) == "12561";
    assert s == [EraSign(t.year)] + YearDigits(t);
    YearOnlyParses(t);
  }

  /** `+1979-00-00T00:00:00Z`, with unspecified month and day. */
  lemma TestUnspecifiedFields(s: string, t: Instant)
    requires s == "+1979-00-00T00:00:00Z" && t == Instant(1979, 1, 1, 0, 0, 0)
    ensures ParseWbTime(s) == Ok(t)
  {
    UnspecifiedFieldsForm(s, t);
    ZeroFieldUnspecified();
    UnspecifiedFieldsParse(t, "00", "00");
  }

  lemma UnspecifiedFieldsForm(s: string, t: Instant)
    requires s == "+1979-00-00T00:00:00Z" && t == Instant(1979, 1, 1, 0, 0, 0)
    ensures s == [EraSign(t.year)] + (YearDigits(t) + "-" + "00" + "-" + "00") + ("T" + ClockPart(t))
  {
    assert YearDigits(t) == "1979";
    assert Pad2(0) == "00";
    assert ClockPart(t) == "00:00:00Z";
  }
}
