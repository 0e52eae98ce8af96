/** The codecs by their own standards: base64 by its groups of six bits, timestamps by the
    Gregorian calendar, and documents by example. */
module CodecLaws {
  import opened Wrappers
  import opened CanonicalJson
  import opened Timestamps
  import Base64

  // -------------------------------------------------------------------- base64

  /** The n-th letter of the alphabet of RFC 4648, section 4. */
  predicate LetterOf(c: char, n: int) {
    || ('A' <= c <= 'Z' && n == c as int - 'A' as int)
    || ('a' <= c <= 'z' && n == c as int - 'a' as int + 26)
    || ('0' <= c <= '9' && n == c as int - '0' as int + 52)
    || (c == '+' && n == 62) || (c == '/' && n == 63)
  }

  /** The group of three octets from i, zeros beyond the end, as a number of 24 bits. */
  function GroupAt(data: Bytes, i: nat): nat
    requires i < |data|
  {
    data[i] as nat * 65536
    + (if i + 1 < |data| then data[i + 1] as nat * 256 else 0) + (if i + 2 < |data| then data[i + 2] as nat else 0)
  }

  /** The letter at j, or padding where no octet is left for it. */
  predicate Spells(text: Bytes, j: nat, n: int, padding: bool) {
    j < |text| && if padding then text[j] == '=' else LetterOf(text[j], n)
  }

  /** Every group of three octets is spelt by the four letters at its place, most
      significant first, and a group cut short by as many equals signs as octets it lacks. */
  lemma {:induction false} GroupsExactly(data: Bytes, i: nat)
    requires i < |data| && i % 3 == 0
    ensures var text, n, j := Base64.Encode(data), GroupAt(data, i), i / 3 * 4;
            && |text| == (|data| + 2) / 3 * 4
            && Spells(text, j, n / 262144, false) && Spells(text, j + 1, n / 4096 % 64, false)
            && Spells(text, j + 2, n / 64 % 64, i + 1 == |data|) && Spells(text, j + 3, n % 64, i + 2 >= |data|)
  {
    hide GroupAt, LetterOf, Base64.Encode;
    if i == 0 {
      FirstGroup(data);
    } else {
      GroupsExactly(data[3..], i - 3);
      LaterGroup(data, i);
    }
    assert |Base64.Encode(data)| == (|data| + 2) / 3 * 4;
  }

  lemma LettersSpell(n: Base64.Sextet)
    ensures LetterOf(Base64.Symbol(n), n)
  {
  }

  lemma QuotientIs(n: int, k: int, q: int, r: int)
    requires k > 0 && n == q * k + r && 0 <= r < k
    ensures n / k == q && n % k == r
  {
    var d := n / k - q;
    assert d * k == r - n % k;
    TimesAtLeast(d, k);
  }

  lemma TimesAtLeast(d: int, k: int)
    requires k > 0
    ensures (d >= 1 ==> d * k >= k) && (d <= -1 ==> d * k <= -k)
  {
  }

  lemma HighLetters(a: nat, b: nat, c: nat)
    requires a < 256 && b < 256 && c < 256
    ensures var n := a * 65536 + b * 256 + c; n / 262144 == a / 4 && n / 4096 % 64 == a % 4 * 16 + b / 16
  {
    var n := a * 65536 + b * 256 + c;
    QuotientIs(n, 262144, a / 4, a % 4 * 65536 + b * 256 + c);
    QuotientIs(n, 4096, a * 16 + b / 16, b % 16 * 256 + c);
    QuotientIs(a * 16 + b / 16, 64, a / 4, a % 4 * 16 + b / 16);
  }

  lemma LowLetters(a: nat, b: nat, c: nat)
    requires a < 256 && b < 256 && c < 256
    ensures var n := a * 65536 + b * 256 + c; n / 64 % 64 == b % 16 * 4 + c / 64 && n % 64 == c % 64
  {
    var n := a * 65536 + b * 256 + c;
    QuotientIs(n, 64, a * 1024 + b * 4 + c / 64, c % 64);
    QuotientIs(a * 1024 + b * 4 + c / 64, 64, a * 16 + b / 16, b % 16 * 4 + c / 64);
  }

  function OctetAt(data: Bytes, i: nat): nat { if i < |data| then data[i] as nat else 0 }

  lemma FirstGroup(data: Bytes)
    requires data != []
    ensures var text, n := Base64.Encode(data), GroupAt(data, 0);
            && Spells(text, 0, n / 262144, false) && Spells(text, 1, n / 4096 % 64, false)
            && Spells(text, 2, n / 64 % 64, 1 == |data|) && Spells(text, 3, n % 64, 2 >= |data|)
  {
    hide LetterOf, Base64.Symbol, Base64.Encode;
    var a, b, c := OctetAt(data, 0), OctetAt(data, 1), OctetAt(data, 2);
    assert GroupAt(data, 0) == a * 65536 + b * 256 + c && a < 256 && b < 256 && c < 256;
    hide GroupAt, OctetAt;
    HighLetters(a, b, c);
    LowLetters(a, b, c);
    EncodeStarts(data);
    LettersSpell(a / 4);
    LettersSpell(a % 4 * 16 + b / 16);
    LettersSpell(b % 16 * 4 + c / 64);
    LettersSpell(c % 64);
  }

  lemma EncodeStarts(data: Bytes)
    requires data != []
    ensures var text, a, b, c := Base64.Encode(data), OctetAt(data, 0), OctetAt(data, 1), OctetAt(data, 2);
            && |text| >= 4 && a < 256 && b < 256 && c < 256
            && text[0] == Base64.Symbol(a / 4) && text[1] == Base64.Symbol(a % 4 * 16 + b / 16)
            && text[2] == (if |data| == 1 then '=' else Base64.Symbol(b % 16 * 4 + c / 64))
            && text[3] == (if |data| <= 2 then '=' else Base64.Symbol(c % 64))
  {
    hide Base64.Symbol;
  }

  lemma LaterGroup(data: Bytes, i: nat)
    requires 3 <= i < |data| && i % 3 == 0
    ensures GroupAt(data, i) == GroupAt(data[3..], i - 3) && i / 3 * 4 == (i - 3) / 3 * 4 + 4
    ensures |Base64.Encode(data)| == |Base64.Encode(data[3..])| + 4
    ensures forall k | 0 <= k < |Base64.Encode(data[3..])| ::
              Base64.Encode(data)[k + 4] == Base64.Encode(data[3..])[k]
  {
    hide Base64.Symbol;
  }

  // ---------------------------------------------------------------- timestamps

  /** The Gregorian rule. */
  predicate LeapYear(year: int) { (year % 4 == 0 && year % 100 != 0) || year % 400 == 0 }

  /** The days of a common year before each month. */
  function DaysBefore(month: int): int {
    match month
    case 1 => 0 case 2 => 31 case 3 => 59 case 4 => 90 case 5 => 120 case 6 => 151
    case 7 => 181 case 8 => 212 case 9 => 243 case 10 => 273 case 11 => 304 case 12 => 334
    case _ => 365
  }

  /** The day of a date, counted from the first of January of the year 1. */
  function DayCount(year: int, month: int, day: int): int {
    365 * (year - 1) + (year - 1) / 4 - (year - 1) / 100 + (year - 1) / 400
    + DaysBefore(month) + (if month > 2 && LeapYear(year) then 1 else 0) + day - 1
  }

  lemma {:induction false} YearsExactly(year: int)
    requires year >= 1
    ensures DaysBeforeYear(year) == 365 * (year - 1) + (year - 1) / 4 - (year - 1) / 100 + (year - 1) / 400
  {
    if year > 1 {
      YearsExactly(year - 1);
      Multiples(year - 1, 4);
      Multiples(year - 1, 100);
      Multiples(year - 1, 400);
      CenturiesAreFours(year - 1);
    }
  }

  lemma Multiples(y: int, k: int)
    requires y >= 1 && k > 0
    ensures y / k == (y - 1) / k + if y % k == 0 then 1 else 0
  {
    var q, r := (y - 1) / k, (y - 1) % k;
    if r + 1 == k {
      QuotientIs(y, k, q + 1, 0);
    } else {
      QuotientIs(y, k, q, r + 1);
    }
  }

  lemma CenturiesAreFours(y: int)
    requires y >= 1
    ensures (y % 400 == 0 ==> y % 100 == 0) && (y % 100 == 0 ==> y % 4 == 0)
  {
  }

  lemma MonthsExactly(year: int, month: int)
    requires 1 <= month <= 13
    ensures DaysBeforeMonth(year, month) == DaysBefore(month) + if month > 2 && LeapYear(year) then 1 else 0
  {
    if month > 1 { MonthsExactly(year, month - 1); }
  }

  /** A date of the calendar and a time of day. */
  predicate Real(c: Civil) {
    && 1 <= c.year <= 9999 && 1 <= c.month <= 12 && 1 <= c.day
    && c.day <= DaysBefore(c.month + 1) - DaysBefore(c.month) + (if c.month == 2 && LeapYear(c.year) then 1 else 0)
    && 0 <= c.hour < 24 && 0 <= c.minute < 60 && 0 <= c.second < 60
  }

  predicate DigitAt(text: Bytes, i: nat, n: int) { i < |text| && text[i] as int == '0' as int + n }

  /** "YYYY-MM-DDTHH:MM:SSZ". */
  predicate TextOf(text: Bytes, c: Civil) {
    && |text| == 20
    && DigitAt(text, 0, c.year / 1000) && DigitAt(text, 1, c.year / 100 % 10)
    && DigitAt(text, 2, c.year / 10 % 10) && DigitAt(text, 3, c.year % 10) && text[4] == '-'
    && DigitAt(text, 5, c.month / 10) && DigitAt(text, 6, c.month % 10) && text[7] == '-'
    && DigitAt(text, 8, c.day / 10) && DigitAt(text, 9, c.day % 10) && text[10] == 'T'
    && DigitAt(text, 11, c.hour / 10) && DigitAt(text, 12, c.hour % 10) && text[13] == ':'
    && DigitAt(text, 14, c.minute / 10) && DigitAt(text, 15, c.minute % 10) && text[16] == ':'
    && DigitAt(text, 17, c.second / 10) && DigitAt(text, 18, c.second % 10) && text[19] == 'Z'
  }

  lemma RealExactly(c: Civil)
    ensures ValidCivil(c) <==> Real(c)
  {
  }

  lemma PadTwo(n: nat)
    requires n < 100
    ensures var t := Pad(n, 2); |t| == 2 && DigitAt(t, 0, n / 10) && DigitAt(t, 1, n % 10)
  {
  }

  lemma PadFour(n: nat)
    requires n < 10000
    ensures var t := Pad(n, 4);
            |t| == 4 && DigitAt(t, 0, n / 1000) && DigitAt(t, 1, n / 100 % 10) && DigitAt(t, 2, n / 10 % 10)
            && DigitAt(t, 3, n % 10)
  {
    PadTwo(n / 100);
    assert n / 10 / 10 == n / 100;
    assert Pad(n, 4) == Pad(n / 10 / 10, 2) + [(n / 10 % 10 + 48) as char] + [(n % 10 + 48) as char];
  }

  lemma WrittenExactly(c: Civil)
    requires ValidCivil(c)
    ensures TextOf(Written(c), c)
  {
    hide Pad;
    PadFour(c.year);
    PadTwo(c.month);
    PadTwo(c.day);
    PadTwo(c.hour);
    PadTwo(c.minute);
    PadTwo(c.second);
  }

  /** The text of a real date and time is that of its second since the year 1, spelt digit
      by digit. */
  lemma StampSpells(c: Civil)
    requires Real(c)
    ensures var t := DayCount(c.year, c.month, c.day) * 86400 + c.hour * 3600 + c.minute * 60 + c.second;
            0 <= t < EndOfTime() && TextOf(Stamp(t), c)
  {
    hide Written, TextOf, EndOfTime, CivilOf;
    RealExactly(c);
    SecondsOfCivil(c);
    YearsExactly(c.year);
    MonthsExactly(c.year, c.month);
    WrittenExactly(c);
  }

  /** The clock ends with the year 9999. */
  lemma EndExactly()
    ensures EndOfTime() == 3652059 * 86400
  {
    hide DaysBeforeYear;
    YearsExactly(10000);
  }

  // ----------------------------------------------------------------- documents

  /** Test vectors of RFC 4648, section 10. */
  lemma Base64Vectors()
    ensures Base64.Encode("f") == "Zg==" && Base64.Encode("fo") == "Zm8=" && Base64.Encode("foo") == "Zm9v"
    ensures Base64.Encode("foob") == "Zm9vYg==" && Base64.Encode("fooba") == "Zm9vYmE="
    ensures Base64.Encode("foobar") == "Zm9vYmFy"
  {
    hide Base64.Encode;
    LastVectors();
    LaterVector("b");
    LaterVector("ba");
    LaterVector("bar");
    assert "foo" + "b" == "foob" && "foo" + "ba" == "fooba" && "foo" + "bar" == "foobar";
  }

  lemma LastVectors()
    ensures Base64.Encode("f") == "Zg==" && Base64.Encode("fo") == "Zm8=" && Base64.Encode("foo") == "Zm9v"
    ensures Base64.Encode("b") == "Yg==" && Base64.Encode("ba") == "YmE=" && Base64.Encode("bar") == "YmFy"
  {
  }

  lemma LaterVector(rest: Bytes)
    ensures Base64.Encode("foo" + rest) == "Zm9v" + Base64.Encode(rest)
  {
    assert ("foo" + rest)[3..] == rest;
  }

  /** A document with values of several kinds. */
  lemma DocumentExample()
    ensures Dumps([("a", Arr([Null, Num(-12)])), ("b", Str("x\"\n"))])
            == "{\"a\":[null,-12],\"b\":\"x\\\"\\n\"}"
  {
    hide PrintPair;
    var first, last := ("a", Arr([Null, Num(-12)])), ("b", Str("x\"\n"));
    FirstExample();
    LastExample();
    assert [first, last][1..] == [last];
    assert PrintMembers([last]) == PrintPair(last.0, last.1);
  }

  lemma FirstExample()
    ensures PrintPair("a", Arr([Null, Num(-12)])) == "\"a\":[null,-12]"
  {
    hide PrintItems;
    ItemsExample();
    assert Quoted("a") == "\"a\"";
  }

  lemma ItemsExample()
    ensures PrintItems([Null, Num(-12)]) == "null,-12"
  {
    assert Digits(12) == "12";
    assert Print(Num(-12)) == "-12" && Print(Null) == "null";
    hide Print, Digits;
    assert [Null, Num(-12)][1..] == [Num(-12)];
    assert PrintItems([Num(-12)]) == "-12";
  }

  lemma LastExample()
    ensures PrintPair("b", Str("x\"\n")) == "\"b\":\"x\\\"\\n\""
  {
    hide Escaped;
    EscapedExample();
    assert Quoted("b") == "\"b\"" && Print(Str("x\"\n")) == "\"x\\\"\\n\"" by { PlainEscaped(); }
  }

  lemma PlainEscaped()
    ensures Escaped("b") == "b"
  {
  }

  lemma EscapedExample()
    ensures Escaped("x\"\n") == "x\\\"\\n"
  {
    assert "x\"\n"[1..] == "\"\n" && "\"\n"[1..] == "\n" && "\n"[1..] == "";
    assert Escaped("\n") == "\\n";
    assert Escaped("\"\n") == "\\\"\\n";
  }
}
