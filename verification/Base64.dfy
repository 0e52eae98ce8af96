/** The base64 codec used for nonces, signatures, signed payloads and saved
    preimages: the encoding of section 4 of RFC 4648, and the decode-then-re-encode
    checks that refuse the non-canonical forms of section 3.5. */
module Base64 {
  import opened Wrappers

  type Sextet = n: int | 0 <= n < 64

  function Symbol(n: Sextet): Octet {
    if n < 26 then (n + 65) as char
    else if n < 52 then (n + 71) as char
    else if n < 62 then (n - 4) as char
    else if n == 62 then '+' else '/'
  }

  function Value(c: char): Option<Sextet> {
    if 'A' <= c <= 'Z' then Some(c as int - 65)
    else if 'a' <= c <= 'z' then Some(c as int - 71)
    else if '0' <= c <= '9' then Some(c as int + 4)
    else if c == '+' then Some(62)
    else if c == '/' then Some(63)
    else None
  }

  function Encode(data: Bytes): (text: Bytes)
    ensures |text| == 4 * ((|data| + 2) / 3)
  {
    if data == [] then []
    else
      var a := data[0] as int;
      if |data| == 1 then [Symbol(a / 4), Symbol(a % 4 * 16), '=', '=']
      else
        var b := data[1] as int;
        if |data| == 2 then
          [Symbol(a / 4), Symbol(a % 4 * 16 + b / 16), Symbol(b % 16 * 4), '=']
        else
          var c := data[2] as int;
          [Symbol(a / 4), Symbol(a % 4 * 16 + b / 16), Symbol(b % 16 * 4 + c / 64), Symbol(c % 64)]
          + Encode(data[3..])
  }

  /** The validating library decoder: whole groups of four, padding only at the
      very end, and no complaint about unused trailing bits. */
  function Decode(text: string): Option<Bytes>
    decreases |text|
  {
    if text == "" then Some([])
    else if |text| < 4 then None
    else
      var a, b := Value(text[0]), Value(text[1]);
      if a.None? || b.None? then None
      else
        var first := (a.value * 4 + b.value / 16) as char;
        if |text| == 4 && text[2] == '=' && text[3] == '=' then Some([first])
        else
          var c := Value(text[2]);
          if c.None? then None
          else
            var second := (b.value % 16 * 16 + c.value / 4) as char;
            if |text| == 4 && text[3] == '=' then Some([first, second])
            else
              var d, rest := Value(text[3]), Decode(text[4..]);
              if d.None? || rest.None? then None
              else Some([first, second, (c.value % 4 * 64 + d.value) as char] + rest.value)
  }

  /** The check every reader repeats: decode, re-encode, compare. */
  function DecodeCanonical(text: string): Option<Bytes> {
    var data := Decode(text);
    if data.Some? && Encode(data.value) == text then data else None
  }

  lemma ValueOfSymbol(n: Sextet)
    ensures Value(Symbol(n)) == Some(n) && Symbol(n) != '='
  {
  }

  lemma DecodeOne(x: Octet)
    ensures Decode(Encode([x])) == Some([x])
  {
    var a := x as int;
    ValueOfSymbol(a / 4);
    ValueOfSymbol(a % 4 * 16);
    var text := Encode([x]);
    assert text == [Symbol(a / 4), Symbol(a % 4 * 16), '=', '='];
    assert a / 4 * 4 + a % 4 * 16 / 16 == a;
  }

  lemma DecodeTwo(x: Octet, y: Octet)
    ensures Decode(Encode([x, y])) == Some([x, y])
  {
    var a, b := x as int, y as int;
    ValueOfSymbol(a / 4);
    ValueOfSymbol(a % 4 * 16 + b / 16);
    ValueOfSymbol(b % 16 * 4);
    var text := Encode([x, y]);
    assert text == [Symbol(a / 4), Symbol(a % 4 * 16 + b / 16), Symbol(b % 16 * 4), '='];
    assert (a % 4 * 16 + b / 16) / 16 == a % 4 && (a % 4 * 16 + b / 16) % 16 == b / 16;
  }

  lemma DecodeGroup(p: Sextet, q: Sextet, r: Sextet, s: Sextet, rest: Bytes, data: Bytes)
    requires Decode(rest) == Some(data)
    ensures Decode([Symbol(p), Symbol(q), Symbol(r), Symbol(s)] + rest)
         == Some([(p * 4 + q / 16) as char, (q % 16 * 16 + r / 4) as char, (r % 4 * 64 + s) as char] + data)
  {
    ValueOfSymbol(p);
    ValueOfSymbol(q);
    ValueOfSymbol(r);
    ValueOfSymbol(s);
    var text := [Symbol(p), Symbol(q), Symbol(r), Symbol(s)] + rest;
    assert text[4..] == rest;
    hide Symbol, Value;
  }

  lemma DecodeThree(x: Octet, y: Octet, z: Octet, rest: Bytes)
    requires Decode(Encode(rest)) == Some(rest)
    ensures Decode(Encode([x, y, z] + rest)) == Some([x, y, z] + rest)
  {
    hide Symbol, Decode;
    var a, b, c := x as int, y as int, z as int;
    assert ([x, y, z] + rest)[3..] == rest;
    DecodeGroup(a / 4, a % 4 * 16 + b / 16, b % 16 * 4 + c / 64, c % 64, Encode(rest), rest);
    assert (a % 4 * 16 + b / 16) / 16 == a % 4 && (a % 4 * 16 + b / 16) % 16 == b / 16;
    assert (b % 16 * 4 + c / 64) / 4 == b % 16 && (b % 16 * 4 + c / 64) % 4 == c / 64;
  }

  lemma {:induction false} DecodeEncode(data: Bytes)
    ensures Decode(Encode(data)) == Some(data)
  {
    hide Symbol, Value;
    if |data| == 1 {
      DecodeOne(data[0]);
      assert data == [data[0]];
    } else if |data| == 2 {
      DecodeTwo(data[0], data[1]);
      assert data == [data[0], data[1]];
    } else if |data| >= 3 {
      DecodeEncode(data[3..]);
      DecodeThree(data[0], data[1], data[2], data[3..]);
      assert data == [data[0], data[1], data[2]] + data[3..];
    }
  }

  /** A text is accepted exactly when it is the encoding of the bytes returned, so
      no byte string has two accepted spellings. */
  lemma AcceptsExactlyEncodings(text: string, data: Bytes)
    ensures DecodeCanonical(text) == Some(data) <==> text == Encode(data)
  {
    DecodeEncode(data);
  }
}
