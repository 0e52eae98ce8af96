/** Clock readings and their 20-character UTC text.

    A moment counts microseconds from the first instant of year 1, the resolution
    of the clock type; records store whole seconds as "YYYY-MM-DDTHH:MM:SSZ". The
    witness database compares these texts, not the times, so their order matters. */
module Timestamps {
  import opened Wrappers
  import opened CanonicalJson

  const SECOND: int := 1_000_000

  predicate Leap(year: int) { year % 4 == 0 && (year % 100 != 0 || year % 400 == 0) }

  function YearLength(year: int): nat { if Leap(year) then 366 else 365 }

  function MonthLength(year: int, month: int): nat {
    if month == 2 then (if Leap(year) then 29 else 28)
    else if month == 4 || month == 6 || month == 9 || month == 11 then 30 else 31
  }

  function DaysBeforeYear(year: int): (days: nat)
    requires year >= 1
    ensures days >= year - 1
  {
    if year == 1 then 0 else DaysBeforeYear(year - 1) + YearLength(year - 1)
  }

  function DaysBeforeMonth(year: int, month: int): nat
    requires 1 <= month <= 13
  {
    if month == 1 then 0 else DaysBeforeMonth(year, month - 1) + MonthLength(year, month - 1)
  }

  /** The first second that has no four-digit year. */
  function EndOfTime(): (end: int)
    ensures end > 0
  {
    DaysBeforeYear(10000) * 86400
  }

  type Moment = m: int | 0 <= m < EndOfTime() * SECOND

  datatype Civil = Civil(year: int, month: int, day: int, hour: int, minute: int, second: int)

  predicate ValidCivil(c: Civil) {
    && ValidDate(c.year, c.month, c.day)
    && 0 <= c.hour < 24 && 0 <= c.minute < 60 && 0 <= c.second < 60
  }

  predicate ValidDate(year: int, month: int, day: int) {
    1 <= year <= 9999 && 1 <= month <= 12 && 1 <= day <= MonthLength(year, month)
  }

  function DayNumber(year: int, month: int, day: int): nat
    requires ValidDate(year, month, day)
  {
    DaysBeforeYear(year) + DaysBeforeMonth(year, month) + (day - 1)
  }

  function SecondsOf(c: Civil): nat
    requires ValidCivil(c)
  {
    DayNumber(c.year, c.month, c.day) * 86400 + (c.hour * 3600 + c.minute * 60 + c.second)
  }

  function YearAt(day: nat, year: int): (int, nat)
    requires year >= 1
  {
    if day < YearLength(year) then (year, day) else YearAt(day - YearLength(year), year + 1)
  }

  function MonthAt(day: nat, year: int, month: int): (int, nat)
    requires 1 <= month <= 12
    decreases 12 - month
  {
    if month == 12 || day < MonthLength(year, month) then (month, day)
    else MonthAt(day - MonthLength(year, month), year, month + 1)
  }

  function DateOf(day: nat): (int, int, int) {
    var (year, inYear) := YearAt(day, 1);
    var (month, inMonth) := MonthAt(inYear, year, 1);
    (year, month, inMonth + 1)
  }

  function CivilOf(seconds: nat): Civil {
    var (year, month, day) := DateOf(seconds / 86400);
    var s := seconds % 86400;
    Civil(year, month, day, s / 3600, s / 60 % 60, s % 60)
  }

  lemma ClockSplits(s: int)
    requires 0 <= s < 86400
    ensures s / 3600 * 3600 + s / 60 % 60 * 60 + s % 60 == s && 0 <= s / 3600 < 24
  {
    assert s / 60 / 60 == s / 3600;
  }

  lemma ClockJoins(hour: int, minute: int, second: int)
    requires 0 <= hour < 24 && 0 <= minute < 60 && 0 <= second < 60
    ensures var s := hour * 3600 + minute * 60 + second;
            0 <= s < 86400 && s / 3600 == hour && s / 60 % 60 == minute && s % 60 == second
  {
    var s := hour * 3600 + minute * 60 + second;
    assert s / 60 == hour * 60 + minute;
  }

  lemma DaySplits(day: nat, s: int)
    requires 0 <= s < 86400
    ensures (day * 86400 + s) / 86400 == day && (day * 86400 + s) % 86400 == s
  {
  }

  lemma {:induction false} YearAtFinds(day: nat, from: int, year: int)
    requires 1 <= from <= year && day < YearLength(year)
    ensures DaysBeforeYear(from) <= DaysBeforeYear(year)
    ensures YearAt(DaysBeforeYear(year) - DaysBeforeYear(from) + day, from) == (year, day)
    decreases year - from
  {
    if from < year {
      YearAtFinds(day, from + 1, year);
    }
  }

  lemma {:induction false} YearAtSplits(day: nat, from: int)
    requires from >= 1
    ensures var (year, rest) := YearAt(day, from);
            && year >= from && rest < YearLength(year)
            && DaysBeforeYear(from) + day == DaysBeforeYear(year) + rest
    decreases day
  {
    if day >= YearLength(from) {
      YearAtSplits(day - YearLength(from), from + 1);
    }
  }

  lemma {:induction false} MonthAtFinds(day: nat, year: int, from: int, month: int)
    requires 1 <= from <= month <= 12 && day < MonthLength(year, month)
    ensures DaysBeforeMonth(year, from) <= DaysBeforeMonth(year, month)
    ensures MonthAt(DaysBeforeMonth(year, month) - DaysBeforeMonth(year, from) + day, year, from) == (month, day)
    decreases month - from
  {
    if from < month {
      MonthAtFinds(day, year, from + 1, month);
    }
  }

  lemma {:induction false} MonthAtSplits(day: nat, year: int, from: int)
    requires 1 <= from <= 12 && DaysBeforeMonth(year, from) + day < DaysBeforeMonth(year, 13)
    ensures var (month, rest) := MonthAt(day, year, from);
            && from <= month <= 12 && rest < MonthLength(year, month)
            && DaysBeforeMonth(year, from) + day == DaysBeforeMonth(year, month) + rest
    decreases 12 - from
  {
    if from < 12 && day >= MonthLength(year, from) {
      MonthAtSplits(day - MonthLength(year, from), year, from + 1);
    }
  }

  lemma MonthsFillYear(year: int)
    ensures DaysBeforeMonth(year, 13) == YearLength(year)
  {
    var leap := if Leap(year) then 1 else 0;
    assert DaysBeforeMonth(year, 2) == 31;
    assert DaysBeforeMonth(year, 3) == 59 + leap;
    assert DaysBeforeMonth(year, 5) == 120 + leap;
    assert DaysBeforeMonth(year, 7) == 181 + leap;
    assert DaysBeforeMonth(year, 9) == 243 + leap;
    assert DaysBeforeMonth(year, 11) == 304 + leap;
  }

  lemma {:induction false} DaysBeforeYearIncreases(a: int, b: int)
    requires 1 <= a < b
    ensures DaysBeforeYear(a) + YearLength(a) <= DaysBeforeYear(b)
  {
    if a + 1 < b {
      DaysBeforeYearIncreases(a, b - 1);
    }
  }

  lemma {:induction false} DaysBeforeMonthIncreases(year: int, a: int, b: int)
    requires 1 <= a < b <= 13
    ensures DaysBeforeMonth(year, a) + MonthLength(year, a) <= DaysBeforeMonth(year, b)
  {
    if a + 1 < b {
      DaysBeforeMonthIncreases(year, a, b - 1);
    }
  }

  lemma DateOfDay(day: nat)
    requires day < DaysBeforeYear(10000)
    ensures var (y, m, d) := DateOf(day); ValidDate(y, m, d) && DayNumber(y, m, d) == day
  {
    YearAtSplits(day, 1);
    var (year, inYear) := YearAt(day, 1);
    assert DaysBeforeYear(1) == 0 && DaysBeforeMonth(year, 1) == 0;
    hide YearAt, MonthAt, DaysBeforeYear, DaysBeforeMonth, MonthLength, YearLength;
    if year > 10000 { DaysBeforeYearIncreases(10000, year); }
    assert year < 10000;
    MonthsFillYear(year);
    MonthAtSplits(inYear, year, 1);
    var (month, inMonth) := MonthAt(inYear, year, 1);
    assert ValidDate(year, month, inMonth + 1);
    assert DayNumber(year, month, inMonth + 1) == day;
    assert DateOf(day) == (year, month, inMonth + 1);
  }

  lemma DayNumberFits(year: int, month: int, day: int)
    requires ValidDate(year, month, day)
    ensures DayNumber(year, month, day) < DaysBeforeYear(year) + YearLength(year) <= DaysBeforeYear(10000)
  {
    MonthsFillYear(year);
    DaysBeforeMonthIncreases(year, month, 13);
    DaysBeforeYearIncreases(year, 10000);
  }

  lemma DayOfDate(year: int, month: int, day: int)
    requires ValidDate(year, month, day)
    ensures DateOf(DayNumber(year, month, day)) == (year, month, day)
  {
    MonthsFillYear(year);
    DaysBeforeMonthIncreases(year, month, 13);
    YearAtFinds(DaysBeforeMonth(year, month) + day - 1, 1, year);
    MonthAtFinds(day - 1, year, 1, month);
    assert DaysBeforeYear(1) == 0 && DaysBeforeMonth(year, 1) == 0;
    hide YearAt, MonthAt, DaysBeforeMonth, DaysBeforeYear, MonthLength, YearLength;
  }

  /** Every second before the end of time has a valid date, and only that one. */
  lemma CivilOfSeconds(seconds: nat)
    requires seconds < EndOfTime()
    ensures ValidCivil(CivilOf(seconds)) && SecondsOf(CivilOf(seconds)) == seconds
  {
    hide DateOf, DayNumber, DaysBeforeYear, ValidDate;
    DateOfDay(seconds / 86400);
    ClockSplits(seconds % 86400);
  }

  lemma SecondsOfCivil(c: Civil)
    requires ValidCivil(c)
    ensures SecondsOf(c) < EndOfTime() && CivilOf(SecondsOf(c)) == c
  {
    hide DateOf, DayNumber, DaysBeforeYear, ValidDate;
    DayNumberFits(c.year, c.month, c.day);
    DayOfDate(c.year, c.month, c.day);
    ClockJoins(c.hour, c.minute, c.second);
    DaySplits(DayNumber(c.year, c.month, c.day), c.hour * 3600 + c.minute * 60 + c.second);
  }

  // -------------------------------------------------------------------- text

  function Pad(n: nat, width: nat): (text: Bytes)
    ensures |text| == width
    ensures forall i | 0 <= i < width :: Digit(text[i])
  {
    if width == 0 then [] else Pad(n / 10, width - 1) + [(n % 10 + 48) as char]
  }

  function DigitValue(c: char): nat
    requires Digit(c)
  {
    c as int - 48
  }

  /** The number a text of decimal digits spells. */
  function Spelled(text: string): nat
    requires forall i | 0 <= i < |text| :: Digit(text[i])
  {
    if text == "" then 0 else Spelled(text[..|text| - 1]) * 10 + DigitValue(text[|text| - 1])
  }

  lemma {:induction false} SpelledPad(n: nat, width: nat)
    requires n < Power10(width)
    ensures Spelled(Pad(n, width)) == n
  {
    if width > 0 {
      SpelledPad(n / 10, width - 1);
      var t := Pad(n, width);
      assert t[..|t| - 1] == Pad(n / 10, width - 1);
    }
  }

  lemma {:induction false} PadSpelled(text: string)
    requires forall i | 0 <= i < |text| :: Digit(text[i])
    ensures Spelled(text) < Power10(|text|) && Pad(Spelled(text), |text|) == text
  {
    if text != "" {
      var front := text[..|text| - 1];
      PadSpelled(front);
      assert text == front + [text[|text| - 1]];
      assert Spelled(text) / 10 == Spelled(front);
    }
  }

  function DateText(c: Civil): Bytes
    requires ValidCivil(c)
  {
    Pad(c.year, 4) + (['-'] + (Pad(c.month, 2) + (['-'] + Pad(c.day, 2))))
  }

  function TimeText(c: Civil): Bytes
    requires ValidCivil(c)
  {
    ['T'] + (Pad(c.hour, 2) + ([':'] + (Pad(c.minute, 2) + ([':'] + (Pad(c.second, 2) + ['Z'])))))
  }

  function Written(c: Civil): (text: Bytes)
    requires ValidCivil(c)
    ensures |text| == 20
  {
    DateText(c) + TimeText(c)
  }

  function Stamp(seconds: int): (text: Bytes)
    requires 0 <= seconds < EndOfTime()
    ensures |text| == 20
  {
    CivilOfSeconds(seconds);
    Written(CivilOf(seconds))
  }

  predicate Digits2(s: string) { |s| == 2 && Digit(s[0]) && Digit(s[1]) }

  predicate DateShaped(s: string) {
    && |s| == 10 && s[4] == '-' && s[7] == '-'
    && (forall i | 0 <= i < 4 :: Digit(s[i])) && Digits2(s[5..7]) && Digits2(s[8..])
  }

  predicate TimeShaped(s: string) {
    && |s| == 10 && s[0] == 'T' && s[3] == ':' && s[6] == ':' && s[9] == 'Z'
    && Digits2(s[1..3]) && Digits2(s[4..6]) && Digits2(s[7..9])
  }

  predicate Shaped(s: string) {
    |s| == 20 && DateShaped(s[..10]) && TimeShaped(s[10..])
  }

  function ReadDate(s: string): (int, int, int)
    requires DateShaped(s)
  {
    (Spelled(s[..4]), Spelled(s[5..7]), Spelled(s[8..]))
  }

  function ReadTime(s: string): (int, int, int)
    requires TimeShaped(s)
  {
    (Spelled(s[1..3]), Spelled(s[4..6]), Spelled(s[7..9]))
  }

  function Fields(s: string): Civil
    requires Shaped(s)
  {
    var (year, month, day) := ReadDate(s[..10]);
    var (hour, minute, second) := ReadTime(s[10..]);
    Civil(year, month, day, hour, minute, second)
  }

  /** The strict reader: the fixed shape, then a real calendar date and time. */
  function Unstamp(s: string): (r: Option<int>)
    ensures r.Some? ==> 0 <= r.value < EndOfTime()
  {
    if Shaped(s) && ValidCivil(Fields(s)) then
      SecondsOfCivil(Fields(s));
      Some(SecondsOf(Fields(s)))
    else None
  }

  lemma ReadWrittenDate(c: Civil)
    requires ValidCivil(c)
    ensures DateShaped(DateText(c)) && ReadDate(DateText(c)) == (c.year, c.month, c.day)
  {
    var s := DateText(c);
    assert Power10(2) == 100 && Power10(4) == 10000;
    SpelledPad(c.year, 4);
    SpelledPad(c.month, 2);
    SpelledPad(c.day, 2);
    hide Pad, Spelled, Power10;
    assert s[..4] == Pad(c.year, 4) && s[5..7] == Pad(c.month, 2) && s[8..] == Pad(c.day, 2);
  }

  lemma ReadWrittenTime(c: Civil)
    requires ValidCivil(c)
    ensures TimeShaped(TimeText(c)) && ReadTime(TimeText(c)) == (c.hour, c.minute, c.second)
  {
    var s := TimeText(c);
    assert Power10(2) == 100;
    SpelledPad(c.hour, 2);
    SpelledPad(c.minute, 2);
    SpelledPad(c.second, 2);
    hide Pad, Spelled, Power10;
    assert s[1..3] == Pad(c.hour, 2) && s[4..6] == Pad(c.minute, 2) && s[7..9] == Pad(c.second, 2);
  }

  lemma FieldsOfWritten(c: Civil)
    requires ValidCivil(c)
    ensures Shaped(Written(c)) && Fields(Written(c)) == c
  {
    ReadWrittenDate(c);
    ReadWrittenTime(c);
    hide DateText, TimeText, DateShaped, TimeShaped, ReadDate, ReadTime;
    assert Written(c)[..10] == DateText(c) && Written(c)[10..] == TimeText(c);
  }

  lemma DateTextOfRead(s: string, c: Civil)
    requires DateShaped(s) && ValidCivil(c) && ReadDate(s) == (c.year, c.month, c.day)
    ensures DateText(c) == s
  {
    PadSpelled(s[..4]);
    PadSpelled(s[5..7]);
    PadSpelled(s[8..]);
    hide Pad, Spelled, ValidCivil;
    assert s == s[..4] + ([s[4]] + (s[5..7] + ([s[7]] + s[8..])));
  }

  lemma TimeTextOfRead(s: string, c: Civil)
    requires TimeShaped(s) && ValidCivil(c) && ReadTime(s) == (c.hour, c.minute, c.second)
    ensures TimeText(c) == s
  {
    PadSpelled(s[1..3]);
    PadSpelled(s[4..6]);
    PadSpelled(s[7..9]);
    hide Pad, Spelled, ValidCivil;
    assert s == [s[0]] + (s[1..3] + ([s[3]] + (s[4..6] + ([s[6]] + (s[7..9] + [s[9]])))));
  }

  lemma WrittenOfFields(s: string)
    requires Shaped(s) && ValidCivil(Fields(s))
    ensures Written(Fields(s)) == s
  {
    hide DateText, TimeText, DateShaped, TimeShaped, ReadDate, ReadTime, ValidCivil;
    DateTextOfRead(s[..10], Fields(s));
    TimeTextOfRead(s[10..], Fields(s));
  }

  /** A text is read as a second exactly when it is that second's stamp. */
  lemma UnstampExactlyStamps(s: string, seconds: int)
    requires 0 <= seconds < EndOfTime()
    ensures Unstamp(s) == Some(seconds) <==> s == Stamp(seconds)
  {
    CivilOfSeconds(seconds);
    FieldsOfWritten(CivilOf(seconds));
    if Unstamp(s) == Some(seconds) {
      SecondsOfCivil(Fields(s));
      WrittenOfFields(s);
    }
  }

  // ------------------------------------------------------------------- order

  lemma {:induction false} LessAppend(p: string, q: string, u: string, v: string)
    requires |p| == |q|
    ensures Less(p + u, q + v) <==> if p == q then Less(u, v) else Less(p, q)
  {
    if p == "" {
      assert p + u == u && q + v == v;
    } else {
      LessAppend(p[1..], q[1..], u, v);
      assert (p + u)[1..] == p[1..] + u && (q + v)[1..] == q[1..] + v;
      assert p == [p[0]] + p[1..] && q == [q[0]] + q[1..];
    }
  }

  lemma {:induction false} PadOrder(m: nat, n: nat, width: nat)
    requires m < Power10(width) && n < Power10(width)
    ensures Less(Pad(m, width), Pad(n, width)) <==> m < n
    ensures Pad(m, width) == Pad(n, width) <==> m == n
  {
    if width > 0 {
      PadOrder(m / 10, n / 10, width - 1);
      LessAppend(Pad(m / 10, width - 1), Pad(n / 10, width - 1), [(m % 10 + 48) as char], [(n % 10 + 48) as char]);
      SpelledPad(m, width);
      SpelledPad(n, width);
    }
  }

  /** Field-by-field comparison, most significant first. */
  predicate Earlier(a: Civil, b: Civil) {
    if a.year != b.year then a.year < b.year
    else if a.month != b.month then a.month < b.month
    else if a.day != b.day then a.day < b.day
    else if a.hour != b.hour then a.hour < b.hour
    else if a.minute != b.minute then a.minute < b.minute
    else a.second < b.second
  }

  lemma EarlierMeansLess(a: Civil, b: Civil)
    requires ValidCivil(a) && ValidCivil(b) && Earlier(a, b)
    ensures SecondsOf(a) < SecondsOf(b)
  {
    DayNumberFits(a.year, a.month, a.day);
    if a.year < b.year {
      DaysBeforeYearIncreases(a.year, b.year);
    } else if a.year == b.year && a.month < b.month {
      DaysBeforeMonthIncreases(a.year, a.month, b.month);
    }
    assert DayNumber(a.year, a.month, a.day) <= DayNumber(b.year, b.month, b.day);
  }

  lemma PartOrder(m: nat, n: nat, width: nat, mark: Octet, u: Bytes, v: Bytes)
    requires m < Power10(width) && n < Power10(width)
    ensures Less(Pad(m, width) + ([mark] + u), Pad(n, width) + ([mark] + v))
       <==> if m == n then Less(u, v) else m < n
  {
    PadOrder(m, n, width);
    LessAppend(Pad(m, width), Pad(n, width), [mark] + u, [mark] + v);
    LessAppend([mark], [mark], u, v);
  }

  lemma DateOrder(a: Civil, b: Civil, u: Bytes, v: Bytes)
    requires ValidCivil(a) && ValidCivil(b)
    ensures Less(DateText(a) + u, DateText(b) + v)
       <==> if a.year != b.year then a.year < b.year
            else if a.month != b.month then a.month < b.month
            else if a.day != b.day then a.day < b.day
            else Less(u, v)
  {
    hide Less, Pad;
    assert Power10(2) == 100 && Power10(4) == 10000;
    var ad, bd := Pad(a.day, 2) + u, Pad(b.day, 2) + v;
    PadOrder(a.day, b.day, 2);
    LessAppend(Pad(a.day, 2), Pad(b.day, 2), u, v);
    PartOrder(a.month, b.month, 2, '-', ad, bd);
    var am, bm := Pad(a.month, 2) + (['-'] + ad), Pad(b.month, 2) + (['-'] + bd);
    PartOrder(a.year, b.year, 4, '-', am, bm);
    assert DateText(a) + u == Pad(a.year, 4) + (['-'] + am);
    assert DateText(b) + v == Pad(b.year, 4) + (['-'] + bm);
  }

  lemma TimeOrder(a: Civil, b: Civil)
    requires ValidCivil(a) && ValidCivil(b)
    ensures Less(TimeText(a), TimeText(b))
       <==> if a.hour != b.hour then a.hour < b.hour
            else if a.minute != b.minute then a.minute < b.minute
            else a.second < b.second
  {
    hide Less, Pad;
    assert Power10(2) == 100;
    PartOrder(a.second, b.second, 2, 'Z', [], []);
    assert ['Z'] + [] == ['Z'];
    assert !Less([], []) by { LessAsymmetricEmpty(); }
    var az, bz := Pad(a.second, 2) + ['Z'], Pad(b.second, 2) + ['Z'];
    PartOrder(a.minute, b.minute, 2, ':', az, bz);
    var am, bm := Pad(a.minute, 2) + ([':'] + az), Pad(b.minute, 2) + ([':'] + bz);
    PartOrder(a.hour, b.hour, 2, ':', am, bm);
    var ah, bh := Pad(a.hour, 2) + ([':'] + am), Pad(b.hour, 2) + ([':'] + bm);
    LessAppend(['T'], ['T'], ah, bh);
  }

  lemma LessAsymmetricEmpty()
    ensures !Less("", "")
  {
  }

  /** Stored texts sort exactly as the seconds they stand for. */
  lemma StampOrder(a: int, b: int)
    requires 0 <= a < EndOfTime() && 0 <= b < EndOfTime()
    ensures Less(Stamp(a), Stamp(b)) <==> a < b
  {
    CivilOfSeconds(a);
    CivilOfSeconds(b);
    var c, d := CivilOf(a), CivilOf(b);
    hide CivilOf, SecondsOf, Less, DateText, TimeText;
    DateOrder(c, d, TimeText(c), TimeText(d));
    TimeOrder(c, d);
    if Earlier(c, d) {
      EarlierMeansLess(c, d);
    } else if c != d {
      EarlierMeansLess(d, c);
    }
  }
}
