/** The flat JSON documents every record is stored in: the compact, key-sorted,
    ASCII-only printer and the duplicate-refusing reader.

    A dictionary is its association list in key order, so printing "with sorted
    keys" is printing the list, and comparing key sets is comparing key lists. No
    record nests one object in another and none holds a fraction, so the reader
    refuses both outright instead of leaving it to the field checks. */
module CanonicalJson {
  import opened Wrappers

  datatype Json = Null | Bool(flag: bool) | Num(number: int) | Str(text: string) | Arr(items: seq<Json>)

  type Doc = seq<(string, Json)>

  /** Code-point order of keys. */
  predicate Less(a: string, b: string) {
    b != "" && (a == "" || a[0] < b[0] || (a[0] == b[0] && Less(a[1..], b[1..])))
  }

  ghost predicate Sorted(doc: Doc) {
    forall i, j | 0 <= i < j < |doc| :: Less(doc[i].0, doc[j].0)
  }

  function Names(doc: Doc): seq<string> {
    seq(|doc|, i requires 0 <= i < |doc| => doc[i].0)
  }

  function Values(doc: Doc): seq<Json> {
    seq(|doc|, i requires 0 <= i < |doc| => doc[i].1)
  }

  /** The dictionary with these keys, listed in key order, and these values. */
  function Record(names: seq<string>, values: seq<Json>): (doc: Doc)
    requires |names| == |values|
    ensures Names(doc) == names && Values(doc) == values
  {
    seq(|names|, i requires 0 <= i < |names| => (names[i], values[i]))
  }

  /** Adding one pair to a dictionary; a repeated key is an error. */
  function Insert(doc: Doc, key: string, value: Json): Option<Doc> {
    if doc == [] then Some([(key, value)])
    else if doc[0].0 == key then None
    else if Less(key, doc[0].0) then Some([(key, value)] + doc)
    else
      var tail := Insert(doc[1..], key, value);
      if tail.None? then None else Some([doc[0]] + tail.value)
  }

  // ---------------------------------------------------------------- printing

  function HexDigit(n: int): Octet
    requires 0 <= n < 16
  {
    if n < 10 then (n + 48) as char else (n + 87) as char
  }

  function Unicode(n: int): Bytes
    requires 0 <= n < 0x10000
  {
    ['\\', 'u', HexDigit(n / 4096), HexDigit(n / 256 % 16), HexDigit(n / 16 % 16), HexDigit(n % 16)]
  }

  function Escape(c: char): Bytes {
    if c == '\"' then ['\\', '\"']
    else if c == '\\' then ['\\', '\\']
    else if c == '\n' then ['\\', 'n']
    else if c == '\r' then ['\\', 'r']
    else if c == '\t' then ['\\', 't']
    else if c == 8 as char then ['\\', 'b']
    else if c == 12 as char then ['\\', 'f']
    else if ' ' <= c <= '~' then [c]
    else if c as int < 0x10000 then Unicode(c as int)
    else Unicode(0xD800 + (c as int - 0x10000) / 0x400) + Unicode(0xDC00 + (c as int - 0x10000) % 0x400)
  }

  function Escaped(s: string): Bytes {
    if s == "" then [] else Escape(s[0]) + Escaped(s[1..])
  }

  function Digits(n: nat): (text: Bytes)
    ensures text != [] && '0' <= text[0] <= '9' && (text[0] == '0' ==> n == 0)
  {
    if n < 10 then [(n + 48) as char] else Digits(n / 10) + [(n % 10 + 48) as char]
  }

  function Print(v: Json): (text: Bytes)
    ensures text != [] && text[0] !in [' ', '\t', '\n', '\r', ']']
  {
    match v
    case Null => ['n', 'u', 'l', 'l']
    case Bool(flag) => if flag then ['t', 'r', 'u', 'e'] else ['f', 'a', 'l', 's', 'e']
    case Num(n) => if n < 0 then ['-'] + Digits(-n) else Digits(n)
    case Str(s) => Quoted(s)
    case Arr(items) => ['['] + PrintItems(items) + [']']
  }

  function Quoted(s: string): Bytes {
    ['\"'] + Escaped(s) + ['\"']
  }

  function PrintItems(items: seq<Json>): Bytes {
    if items == [] then []
    else Print(items[0]) + (if |items| == 1 then [] else [','] + PrintItems(items[1..]))
  }

  function PrintPair(key: string, value: Json): Bytes {
    Quoted(key) + ([':'] + Print(value))
  }

  function PrintMembers(doc: Doc): Bytes {
    if doc == [] then []
    else PrintPair(doc[0].0, doc[0].1) + (if |doc| == 1 then [] else [','] + PrintMembers(doc[1..]))
  }

  function Dumps(doc: Doc): Bytes {
    ['{'] + PrintMembers(doc) + ['}']
  }

  // ----------------------------------------------------------------- reading

  predicate Blank(c: char) { c == ' ' || c == '\t' || c == '\n' || c == '\r' }

  function Skip(t: Bytes): (rest: Bytes)
    ensures |rest| <= |t|
    ensures rest != [] ==> !Blank(rest[0])
  {
    if t != [] && Blank(t[0]) then Skip(t[1..]) else t
  }

  function HexValue(c: char): Option<int> {
    if '0' <= c <= '9' then Some(c as int - 48)
    else if 'a' <= c <= 'f' then Some(c as int - 87)
    else if 'A' <= c <= 'F' then Some(c as int - 55)
    else None
  }

  function ReadHex(t: Bytes): (r: Option<int>)
    ensures r.Some? ==> |t| >= 4
  {
    if |t| < 4 then None
    else
      var a, b, c, d := HexValue(t[0]), HexValue(t[1]), HexValue(t[2]), HexValue(t[3]);
      if a.None? || b.None? || c.None? || d.None? then None
      else Some(a.value * 4096 + b.value * 256 + c.value * 16 + d.value)
  }

  function ReadUnicode(t: Bytes): (r: Option<(char, Bytes)>)
    ensures r.Some? ==> |r.value.1| < |t|
  {
    var n := ReadHex(t);
    if n.None? then None
    else if 0 <= n.value < 0xD800 || 0xE000 <= n.value < 0x10000 then Some((n.value as char, t[4..]))
    else if 0xD800 <= n.value < 0xDC00 && |t| >= 10 && t[4] == '\\' && t[5] == 'u' then
      var low := ReadHex(t[6..]);
      if low.Some? && 0xDC00 <= low.value < 0xE000 then
        Some(((0x10000 + (n.value - 0xD800) * 0x400 + (low.value - 0xDC00)) as char, t[10..]))
      else None
    else None
  }

  function ReadChar(t: Bytes): (r: Option<(char, Bytes)>)
    ensures r.Some? ==> |r.value.1| < |t|
  {
    if t == [] || t[0] < ' ' then None
    else if t[0] != '\\' then Some((t[0], t[1..]))
    else if |t| == 1 then None
    else
      var rest := t[2..];
      match t[1]
      case '\"' => Some(('\"', rest))
      case '\\' => Some(('\\', rest))
      case '/' => Some(('/', rest))
      case 'n' => Some(('\n', rest))
      case 'r' => Some(('\r', rest))
      case 't' => Some(('\t', rest))
      case 'b' => Some((8 as char, rest))
      case 'f' => Some((12 as char, rest))
      case 'u' => ReadUnicode(rest)
      case _ => None
  }

  /** Reads the rest of a string whose opening quote is gone. */
  function ReadString(t: Bytes): (r: Option<(string, Bytes)>)
    ensures r.Some? ==> |r.value.1| < |t|
    decreases |t|
  {
    if t == [] then None
    else if t[0] == '\"' then Some(("", t[1..]))
    else
      var c := ReadChar(t);
      if c.None? then None
      else
        var s := ReadString(c.value.1);
        if s.None? then None else Some(([c.value.0] + s.value.0, s.value.1))
  }

  predicate Digit(c: char) { '0' <= c <= '9' }

  function ReadDigits(t: Bytes, seen: nat): (r: (nat, Bytes))
    ensures |r.1| <= |t|
    decreases |t|
  {
    if t != [] && Digit(t[0]) then ReadDigits(t[1..], seen * 10 + (t[0] as int - 48)) else (seen, t)
  }

  function ReadNat(t: Bytes): (r: Option<(nat, Bytes)>)
    ensures r.Some? ==> |r.value.1| < |t|
  {
    if t == [] || !Digit(t[0]) then None
    else
      var r := if t[0] == '0' then (0, t[1..]) else ReadDigits(t[1..], t[0] as int - 48);
      if r.1 != [] && r.1[0] in ['.', 'e', 'E'] then None else Some(r)
  }

  predicate StartsWith(t: Bytes, word: string) {
    |word| <= |t| && t[..|word|] == word
  }

  function ReadValue(t: Bytes): (r: Option<(Json, Bytes)>)
    ensures r.Some? ==> |r.value.1| < |t|
    decreases |t|, 0
  {
    if t == [] then None
    else if t[0] == '\"' then
      var s := ReadString(t[1..]);
      if s.None? then None else Some((Str(s.value.0), s.value.1))
    else if t[0] == '[' then
      var body := Skip(t[1..]);
      if body != [] && body[0] == ']' then Some((Arr([]), body[1..]))
      else
        var items := ReadItems(body);
        if items.None? then None else Some((Arr(items.value.0), items.value.1))
    else if t[0] == '-' then
      var n := ReadNat(t[1..]);
      if n.None? then None else var m: int := n.value.0; Some((Num(-m), n.value.1))
    else if Digit(t[0]) then
      var n := ReadNat(t);
      if n.None? then None else Some((Num(n.value.0), n.value.1))
    else if StartsWith(t, "null") then Some((Null, t[4..]))
    else if StartsWith(t, "true") then Some((Bool(true), t[4..]))
    else if StartsWith(t, "false") then Some((Bool(false), t[5..]))
    else None
  }

  /** One or more items and the closing bracket. */
  function ReadItems(t: Bytes): (r: Option<(seq<Json>, Bytes)>)
    ensures r.Some? ==> |r.value.1| < |t|
    decreases |t|, 1
  {
    var first := ReadValue(t);
    if first.None? then None
    else
      var after := Skip(first.value.1);
      if after == [] then None
      else if after[0] == ']' then Some(([first.value.0], after[1..]))
      else if after[0] != ',' then None
      else
        var more := ReadItems(Skip(after[1..]));
        if more.None? then None else Some(([first.value.0] + more.value.0, more.value.1))
  }

  /** One key, its colon and its value. */
  function ReadPair(t: Bytes): (r: Option<((string, Json), Bytes)>)
    ensures r.Some? ==> |r.value.1| < |t|
  {
    if t == [] || t[0] != '\"' then None
    else
      var key := ReadString(t[1..]);
      if key.None? then None
      else
        var colon := Skip(key.value.1);
        if colon == [] || colon[0] != ':' then None
        else
          var v := ReadValue(Skip(colon[1..]));
          if v.None? then None else Some(((key.value.0, v.value.0), v.value.1))
  }

  /** One or more members and the closing brace, added to those already read. */
  function ReadMembers(t: Bytes, seen: Doc): (r: Option<(Doc, Bytes)>)
    ensures r.Some? ==> |r.value.1| < |t|
    decreases |t|
  {
    var pair := ReadPair(t);
    if pair.None? then None
    else
      var added := Insert(seen, pair.value.0.0, pair.value.0.1);
      var after := Skip(pair.value.1);
      if added.None? || after == [] then None
      else if after[0] == '}' then Some((added.value, after[1..]))
      else if after[0] != ',' then None
      else ReadMembers(Skip(after[1..]), added.value)
  }

  predicate Ascii(raw: Bytes) { forall i | 0 <= i < |raw| :: raw[i] as int < 128 }

  function Loads(raw: Bytes): Option<Doc> {
    if !Ascii(raw) then None
    else
      var t := Skip(raw);
      if t == [] || t[0] != '{' then None
      else
        var body := Skip(t[1..]);
        if body != [] && body[0] == '}' then
          if Skip(body[1..]) == [] then Some([]) else None
        else
          var members := ReadMembers(body, []);
          if members.None? || Skip(members.value.1) != [] then None else Some(members.value.0)
  }

  // -------------------------------------------------------------- round trip

  lemma HexOf(n: int)
    requires 0 <= n < 16
    ensures HexValue(HexDigit(n)) == Some(n)
  {
  }

  lemma Nibbles(n: int)
    requires 0 <= n < 0x10000
    ensures n / 4096 * 4096 + n / 256 % 16 * 256 + n / 16 % 16 * 16 + n % 16 == n
  {
    assert n / 256 / 16 == n / 4096 && n / 16 / 16 == n / 256;
  }

  lemma ReadHexOf(n: int, rest: Bytes)
    requires 0 <= n < 0x10000
    ensures ReadHex(Unicode(n)[2..] + rest) == Some(n)
  {
    HexOf(n / 4096);
    HexOf(n / 256 % 16);
    HexOf(n / 16 % 16);
    HexOf(n % 16);
    Nibbles(n);
    var t := Unicode(n)[2..] + rest;
    assert t[0] == HexDigit(n / 4096) && t[1] == HexDigit(n / 256 % 16);
    assert t[2] == HexDigit(n / 16 % 16) && t[3] == HexDigit(n % 16);
  }

  lemma ReadBasicUnicode(c: char, rest: Bytes)
    requires c as int < 0x10000
    ensures ReadUnicode(Unicode(c as int)[2..] + rest) == Some((c, rest))
  {
    var t := Unicode(c as int)[2..] + rest;
    ReadHexOf(c as int, rest);
    assert t[4..] == rest;
  }

  lemma ReadSurrogates(high: int, low: int, rest: Bytes)
    requires 0xD800 <= high < 0xDC00 && 0xDC00 <= low < 0xE000
    ensures ReadUnicode(Unicode(high)[2..] + (Unicode(low) + rest))
         == Some(((0x10000 + (high - 0xD800) * 0x400 + (low - 0xDC00)) as char, rest))
  {
    var t := Unicode(high)[2..] + (Unicode(low) + rest);
    ReadHexOf(high, Unicode(low) + rest);
    assert t[4..] == Unicode(low) + rest;
    assert t[6..] == Unicode(low)[2..] + rest;
    ReadHexOf(low, rest);
    assert t[10..] == rest;
  }

  lemma ReadEscapedUnicode(t: Bytes)
    requires |t| >= 2 && t[0] == '\\' && t[1] == 'u'
    ensures ReadChar(t) == ReadUnicode(t[2..])
  {
  }

  lemma ReadCharOf(c: char, rest: Bytes)
    ensures ReadChar(Escape(c) + rest) == Some((c, rest))
    ensures Escape(c) != [] && Escape(c)[0] != '\"'
  {
    var t := Escape(c) + rest;
    if ' ' <= c <= '~' || c in ['\n', '\r', '\t', 8 as char, 12 as char] {
      assert t[|Escape(c)|..] == rest;
    } else if c as int < 0x10000 {
      assert t[2..] == Unicode(c as int)[2..] + rest;
      ReadEscapedUnicode(t);
      ReadBasicUnicode(c, rest);
    } else {
      var high, low := 0xD800 + (c as int - 0x10000) / 0x400, 0xDC00 + (c as int - 0x10000) % 0x400;
      assert t[2..] == Unicode(high)[2..] + (Unicode(low) + rest);
      ReadEscapedUnicode(t);
      ReadSurrogates(high, low, rest);
    }
  }

  lemma Regroup(a: Bytes, b: Bytes, c: Bytes)
    ensures (a + b) + c == a + (b + c)
  {
  }

  lemma {:induction false} ReadStringOf(s: string, rest: Bytes)
    ensures ReadString(Escaped(s) + ['\"'] + rest) == Some((s, rest))
  {
    hide Escape, ReadChar;
    var t := Escaped(s) + ['\"'] + rest;
    if s == "" {
      assert t[0] == '\"' && t[1..] == rest;
    } else {
      var first, more := Escape(s[0]), Escaped(s[1..]) + ['\"'] + rest;
      Regroup(Escaped(s), ['\"'], rest);
      Regroup(first, Escaped(s[1..]), ['\"'] + rest);
      Regroup(Escaped(s[1..]), ['\"'], rest);
      assert t == first + more;
      ReadCharOf(s[0], more);
      ReadStringOf(s[1..], rest);
      assert s == [s[0]] + s[1..];
    }
  }

  /** Text a printed value may be followed by: nothing that could extend a number. */
  predicate Follows(rest: Bytes) {
    rest == [] || rest[0] in [',', ']', '}']
  }

  lemma {:induction false} ReadDigitsOf(n: nat, rest: Bytes)
    ensures ReadDigits(Digits(n) + rest, 0) == ReadDigits(rest, n)
  {
    var t := Digits(n) + rest;
    var last: Bytes := [(n % 10 + 48) as char];
    if n < 10 {
      assert t == last + rest;
      assert t[1..] == rest;
    } else {
      assert t == Digits(n / 10) + (last + rest);
      ReadDigitsOf(n / 10, last + rest);
      assert (last + rest)[1..] == rest;
    }
  }

  lemma ReadNatOf(n: nat, rest: Bytes)
    requires Follows(rest)
    ensures ReadNat(Digits(n) + rest) == Some((n, rest))
  {
    var t := Digits(n) + rest;
    ReadDigitsOf(n, rest);
    if n == 0 {
      assert t[1..] == rest;
    } else {
      assert ReadDigits(t, 0) == ReadDigits(t[1..], t[0] as int - 48);
    }
  }

  lemma ReadWords(rest: Bytes)
    ensures ReadValue(Print(Null) + rest) == Some((Null, rest))
    ensures ReadValue(Print(Bool(true)) + rest) == Some((Bool(true), rest))
    ensures ReadValue(Print(Bool(false)) + rest) == Some((Bool(false), rest))
  {
    var n, t, f := Print(Null) + rest, Print(Bool(true)) + rest, Print(Bool(false)) + rest;
    assert n[..4] == "null" && n[4..] == rest;
    assert t[..4] == "true" && t[4..] == rest;
    assert f[..5] == "false" && f[5..] == rest;
  }

  lemma ReadNumberOf(n: int, rest: Bytes)
    requires Follows(rest)
    ensures ReadValue(Print(Num(n)) + rest) == Some((Num(n), rest))
  {
    var t := Print(Num(n)) + rest;
    if n < 0 {
      assert t[1..] == Digits(-n) + rest;
      ReadNatOf(-n, rest);
    } else {
      ReadNatOf(n, rest);
    }
  }

  lemma {:induction false} ReadValueOf(v: Json, rest: Bytes)
    requires Follows(rest)
    ensures ReadValue(Print(v) + rest) == Some((v, rest))
    decreases v
  {
    hide ReadItems, ReadString, ReadNat, StartsWith, Digits, Escaped;
    var t := Print(v) + rest;
    match v
    case Null => ReadWords(rest);
    case Bool(flag) => ReadWords(rest);
    case Num(n) => ReadNumberOf(n, rest);
    case Str(s) =>
      assert t[1..] == Escaped(s) + ['\"'] + rest;
      ReadStringOf(s, rest);
    case Arr(items) =>
      var body := t[1..];
      assert body == PrintItems(items) + ([']'] + rest);
      if items == [] {
        assert body == [']'] + rest;
        assert body[1..] == rest;
      } else {
        ReadItemsOf(items, rest);
        assert Skip(body) == body;
      }
  }

  lemma {:induction false} ReadItemsOf(items: seq<Json>, rest: Bytes)
    requires items != []
    ensures ReadItems(PrintItems(items) + ([']'] + rest)) == Some((items, rest))
    ensures PrintItems(items) != [] && PrintItems(items)[0] != ']' && !Blank(PrintItems(items)[0])
    decreases items
  {
    hide Print, ReadValue;
    var t := PrintItems(items) + ([']'] + rest);
    if |items| == 1 {
      var after := [']'] + rest;
      assert t == Print(items[0]) + after;
      ReadValueOf(items[0], after);
      assert Skip(after) == after && after[1..] == rest;
      assert items == [items[0]];
    } else {
      var more := PrintItems(items[1..]) + ([']'] + rest);
      var after := [','] + more;
      assert t == Print(items[0]) + after;
      ReadValueOf(items[0], after);
      ReadItemsOf(items[1..], rest);
      assert Skip(after) == after && after[1..] == more && Skip(more) == more;
      assert items == [items[0]] + items[1..];
    }
  }

  lemma {:induction false} LessAsymmetric(a: string, b: string)
    requires Less(a, b)
    ensures a != b && !Less(b, a)
  {
    if a != "" && a[0] == b[0] {
      LessAsymmetric(a[1..], b[1..]);
    }
  }

  lemma {:induction false} LessTransitive(a: string, b: string, c: string)
    requires Less(a, b) && Less(b, c)
    ensures Less(a, c)
  {
    if a != "" && a[0] == b[0] == c[0] {
      LessTransitive(a[1..], b[1..], c[1..]);
    }
  }

  lemma {:induction false} InsertLast(doc: Doc, key: string, value: Json)
    requires forall i | 0 <= i < |doc| :: Less(doc[i].0, key)
    ensures Insert(doc, key, value) == Some(doc + [(key, value)])
  {
    if doc == [] {
      assert doc + [(key, value)] == [(key, value)];
    } else {
      LessAsymmetric(doc[0].0, key);
      InsertLast(doc[1..], key, value);
      assert doc + [(key, value)] == [doc[0]] + (doc[1..] + [(key, value)]);
    }
  }

  lemma ReadPairOf(key: string, value: Json, after: Bytes)
    requires Follows(after)
    ensures ReadPair(PrintPair(key, value) + after) == Some(((key, value), after))
    ensures PrintPair(key, value)[0] == '\"'
  {
    hide ReadValue, ReadString, Print, Escaped;
    var t := PrintPair(key, value) + after;
    var valued := Print(value) + after;
    var colon := [':'] + valued;
    assert t[1..] == Escaped(key) + ['\"'] + colon;
    ReadStringOf(key, colon);
    assert Skip(colon) == colon && colon[1..] == valued;
    assert Skip(valued) == valued;
    ReadValueOf(value, after);
  }

  /** A member is inserted, and the text after it decides how to go on. */
  lemma ReadMembersStep(seen: Doc, key: string, value: Json, end: Octet, more: Bytes)
    requires end == ',' || end == '}'
    requires forall i | 0 <= i < |seen| :: Less(seen[i].0, key)
    ensures ReadMembers(PrintPair(key, value) + ([end] + more), seen)
         == if end == '}' then Some((seen + [(key, value)], more))
            else ReadMembers(Skip(more), seen + [(key, value)])
  {
    hide ReadPair, PrintPair, Insert, Print, Quoted, ReadValue, ReadString;
    var after := [end] + more;
    ReadPairOf(key, value, after);
    InsertLast(seen, key, value);
    assert after[1..] == more;
    assert Skip(after) == after;
  }

  /** A document's text from its first member on, up to and including the brace. */
  function MembersText(doc: Doc, rest: Bytes): Bytes {
    PrintMembers(doc) + (['}'] + rest)
  }

  lemma MembersTextSplits(doc: Doc, rest: Bytes)
    requires doc != []
    ensures MembersText(doc, rest) == PrintPair(doc[0].0, doc[0].1)
              + if |doc| == 1 then ['}'] + rest else [','] + MembersText(doc[1..], rest)
    ensures MembersText(doc, rest)[0] == '\"'
  {
    var first, end := PrintPair(doc[0].0, doc[0].1), ['}'] + rest;
    ReadPairOf(doc[0].0, doc[0].1, []);
    hide PrintPair;
    if |doc| == 1 {
      assert PrintMembers(doc) == first + [];
      Regroup(first, [], end);
      assert [] + end == end;
    } else {
      var more := PrintMembers(doc[1..]);
      assert PrintMembers(doc) == first + ([','] + more);
      hide PrintMembers;
      Regroup(first, [','] + more, end);
      Regroup([','], more, end);
    }
  }

  lemma {:induction false} ReadMembersOf(seen: Doc, doc: Doc, rest: Bytes)
    requires doc != [] && Sorted(doc)
    requires forall i | 0 <= i < |seen| :: Less(seen[i].0, doc[0].0)
    ensures ReadMembers(MembersText(doc, rest), seen) == Some((seen + doc, rest))
    decreases doc
  {
    hide ReadPair, ReadMembers, PrintPair, MembersText, Less;
    var (key, value) := doc[0];
    MembersTextSplits(doc, rest);
    if |doc| == 1 {
      ReadMembersStep(seen, key, value, '}', rest);
      assert seen + [(key, value)] == seen + doc;
    } else {
      var added, later := seen + [(key, value)], doc[1..];
      ReadMembersStep(seen, key, value, ',', MembersText(later, rest));
      MembersTextSplits(later, rest);
      assert Skip(MembersText(later, rest)) == MembersText(later, rest);
      forall i | 0 <= i < |added| ensures Less(added[i].0, later[0].0) {
        if i < |seen| { LessTransitive(seen[i].0, key, later[0].0); }
      }
      ReadMembersOf(added, later, rest);
      assert added + later == seen + doc;
    }
  }

  lemma {:induction false} EscapedIsAscii(s: string)
    ensures forall i | 0 <= i < |Escaped(s)| :: Escaped(s)[i] as int < 128
  {
    if s != "" {
      EscapedIsAscii(s[1..]);
    }
  }

  lemma {:induction false} DigitsAreAscii(n: nat)
    ensures forall i | 0 <= i < |Digits(n)| :: Digits(n)[i] as int < 128
  {
    if n >= 10 {
      DigitsAreAscii(n / 10);
    }
  }

  lemma {:induction false} PrintIsAscii(v: Json)
    ensures forall i | 0 <= i < |Print(v)| :: Print(v)[i] as int < 128
    decreases v
  {
    match v
    case Str(s) => EscapedIsAscii(s);
    case Num(n) => DigitsAreAscii(if n < 0 then -n else n);
    case Arr(items) => PrintItemsAreAscii(items);
    case _ =>
  }

  lemma {:induction false} PrintItemsAreAscii(items: seq<Json>)
    ensures forall i | 0 <= i < |PrintItems(items)| :: PrintItems(items)[i] as int < 128
    decreases items
  {
    if items != [] {
      PrintIsAscii(items[0]);
      PrintItemsAreAscii(items[1..]);
    }
  }

  lemma {:induction false} PrintMembersAreAscii(doc: Doc)
    ensures forall i | 0 <= i < |PrintMembers(doc)| :: PrintMembers(doc)[i] as int < 128
  {
    if doc != [] {
      EscapedIsAscii(doc[0].0);
      PrintIsAscii(doc[0].1);
      PrintMembersAreAscii(doc[1..]);
    }
  }

  lemma DumpsIsAscii(doc: Doc, ending: Bytes)
    requires Ascii(ending)
    ensures Ascii(Dumps(doc) + ending)
  {
    PrintMembersAreAscii(doc);
  }

  lemma ReadBody(doc: Doc, rest: Bytes)
    requires doc != [] && Sorted(doc)
    ensures MembersText(doc, rest)[0] == '\"' && ReadMembers(MembersText(doc, rest), []) == Some((doc, rest))
  {
    hide ReadMembers, MembersText;
    assert [] + doc == doc;
    ReadMembersOf([], doc, rest);
    MembersTextSplits(doc, rest);
  }

  lemma DumpsShape(doc: Doc, rest: Bytes)
    ensures var raw := Dumps(doc) + rest;
            |raw| >= 2 && raw[0] == '{' && raw[1..] == MembersText(doc, rest)
    ensures doc == [] ==> MembersText(doc, rest) == ['}'] + rest
  {
    hide PrintPair;
    var members := PrintMembers(doc);
    assert Dumps(doc) + rest == ['{'] + (members + ['}'] + rest);
    Regroup(members, ['}'], rest);
    if doc == [] { assert members == [] && [] + (['}'] + rest) == ['}'] + rest; }
  }

  lemma OpensBrace(raw: Bytes)
    requires raw != [] && raw[0] == '{'
    ensures Skip(raw) == raw
  {
  }

  /** Reading undoes printing, for every dictionary and any blank ending. */
  lemma LoadsThen(doc: Doc, ending: Bytes)
    requires Sorted(doc) && Skip(ending) == [] && Ascii(ending)
    ensures Loads(Dumps(doc) + ending) == Some(doc)
  {
    hide ReadMembers, PrintMembers, Dumps, MembersText, Ascii, Sorted;
    DumpsIsAscii(doc, ending);
    DumpsShape(doc, ending);
    var raw, body := Dumps(doc) + ending, MembersText(doc, ending);
    OpensBrace(raw);
    if doc != [] {
      ReadBody(doc, ending);
    } else {
      assert body[1..] == ending;
    }
    assert Skip(body) == body;
    hide Skip;
  }

  lemma LoadsDumps(doc: Doc)
    requires Sorted(doc)
    ensures Loads(Dumps(doc)) == Some(doc)
  {
    LoadsThen(doc, []);
    assert Dumps(doc) + [] == Dumps(doc);
  }

  /** The first difference decides. */
  lemma {:induction false} LessAt(a: string, b: string, i: nat)
    requires i <= |a| && i < |b| && a[..i] == b[..i] && (i == |a| || a[i] < b[i])
    ensures Less(a, b)
  {
    if i > 0 {
      assert a[0] == a[..i][0] && b[0] == b[..i][0];
      assert a[1..][..i - 1] == a[..i][1..] && b[1..][..i - 1] == b[..i][1..];
      LessAt(a[1..], b[1..], i - 1);
    }
  }

  /** Each name before the next. */
  ghost predicate Ascending(names: seq<string>) {
    forall i | 0 < i < |names| :: Less(names[i - 1], names[i])
  }

  lemma {:induction false} AscendingApart(names: seq<string>, i: int, j: int)
    requires Ascending(names) && 0 <= i < j < |names|
    ensures Less(names[i], names[j])
  {
    if i + 1 < j {
      AscendingApart(names, i, j - 1);
      LessTransitive(names[i], names[j - 1], names[j]);
    }
  }

  lemma RecordSorted(names: seq<string>, values: seq<Json>)
    requires |names| == |values| && Ascending(names)
    ensures Sorted(Record(names, values))
  {
    var doc := Record(names, values);
    forall i, j | 0 <= i < j < |doc| ensures Less(doc[i].0, doc[j].0) {
      AscendingApart(names, i, j);
    }
  }

  /** A printed record is read back as the record's own keys and values. */
  lemma LoadsRecord(names: seq<string>, values: seq<Json>)
    requires |names| == |values| && Ascending(names)
    ensures Loads(Dumps(Record(names, values))) == Some(Record(names, values))
  {
    RecordSorted(names, values);
    LoadsDumps(Record(names, values));
  }

  /** The values of a bounded document that has exactly these keys. */
  function ReadRecord(raw: Bytes, most: nat, names: seq<string>): (r: Option<seq<Json>>)
    ensures r.Some? ==> |r.value| == |names|
  {
    if !(1 <= |raw| <= most) then None
    else
      var doc := Loads(raw);
      if doc.None? || Names(doc.value) != names then None
      else
        assert |Names(doc.value)| == |Values(doc.value)|;
        Some(Values(doc.value))
  }

  lemma ReadsRecord(names: seq<string>, values: seq<Json>, most: nat)
    requires |names| == |values| && Ascending(names) && 1 <= |Dumps(Record(names, values))| <= most
    ensures ReadRecord(Dumps(Record(names, values)), most, names) == Some(values)
  {
    hide Dumps, Ascending;
    LoadsRecord(names, values);
  }

  /** The same for a record printed on a line of its own. */
  lemma ReadsLine(names: seq<string>, values: seq<Json>, most: nat)
    requires |names| == |values| && Ascending(names) && |Dumps(Record(names, values))| < most
    ensures ReadRecord(Dumps(Record(names, values)) + ['\n'], most, names) == Some(values)
  {
    hide Dumps, Ascending, Loads;
    RecordSorted(names, values);
    LoadsThen(Record(names, values), ['\n']);
  }

  // ------------------------------------------------------------------- sizes

  /** Text that is printed as it stands. */
  predicate Plain(s: string) {
    forall i | 0 <= i < |s| :: ' ' <= s[i] <= '~' && s[i] != '\"' && s[i] != '\\'
  }

  lemma {:induction false} QuotedWidth(s: string)
    requires Plain(s)
    ensures |Quoted(s)| == |s| + 2
  {
    if s != "" {
      QuotedWidth(s[1..]);
    }
  }

  /** No character prints as more than twelve. */
  lemma {:induction false} CrudeWidth(s: string)
    ensures |Quoted(s)| <= 12 * |s| + 2
  {
    if s != "" {
      CrudeWidth(s[1..]);
    }
  }

  lemma {:induction false} DigitsWidth(n: nat, width: nat)
    requires width > 0 && n < Power10(width)
    ensures |Digits(n)| <= width
  {
    if n >= 10 {
      DigitsWidth(n / 10, width - 1);
    }
  }

  function Power10(width: nat): nat { if width == 0 then 1 else 10 * Power10(width - 1) }

  lemma {:induction false} MembersWidth(doc: Doc, most: nat)
    requires forall i | 0 <= i < |doc| :: |PrintPair(doc[i].0, doc[i].1)| <= most
    ensures |PrintMembers(doc)| <= |doc| * (most + 1)
  {
    hide PrintPair;
    if doc != [] {
      MembersWidth(doc[1..], most);
      assert |doc| * (most + 1) == (|doc| - 1) * (most + 1) + (most + 1);
    }
  }

  /** A printed record is no longer than its longest member times their number. */
  lemma RecordWidth(names: seq<string>, values: seq<Json>, name: nat, value: nat)
    requires |names| == |values|
    requires forall i | 0 <= i < |names| :: Plain(names[i]) && |names[i]| <= name
    requires forall i | 0 <= i < |values| :: |Print(values[i])| <= value
    ensures |Dumps(Record(names, values))| <= |names| * (name + value + 4) + 2
  {
    var doc := Record(names, values);
    forall i | 0 <= i < |doc| ensures |PrintPair(doc[i].0, doc[i].1)| <= name + value + 3 {
      QuotedWidth(names[i]);
    }
    MembersWidth(doc, name + value + 3);
  }

  lemma RecordWidthCrude(names: seq<string>, values: seq<Json>, name: nat, value: nat)
    requires |names| == |values|
    requires forall i | 0 <= i < |names| :: |names[i]| <= name
    requires forall i | 0 <= i < |values| :: |Print(values[i])| <= value
    ensures |Dumps(Record(names, values))| <= |names| * (12 * name + value + 4) + 2
  {
    var doc := Record(names, values);
    forall i | 0 <= i < |doc| ensures |PrintPair(doc[i].0, doc[i].1)| <= 12 * name + value + 3 {
      CrudeWidth(names[i]);
    }
    MembersWidth(doc, 12 * name + value + 3);
  }
}
