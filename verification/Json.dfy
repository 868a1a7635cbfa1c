/** JSON text after RFC 8259: a compact encoder for trees of values and an independent
    decoder of the full grammar. */
module Json {
  import opened Common
  import Decimal

  /** A JSON value. A number is `mantissa * 10^exponent`; an object keeps its members in the
      order of the text. */
  datatype Json =
    | Null
    | Bool(b: bool)
    | Number(mantissa: int, exponent: int)
    | Str(text: string)
    | Arr(items: seq<Json>)
    | Obj(members: seq<(string, Json)>)

  // ---------------------------------------------------------------------------
  // Encoding
  // ---------------------------------------------------------------------------

  function HexDigit(n: nat): char
    requires n < 16
  {
    if n < 10 then '0' + n as char else 'a' + (n - 10) as char
  }

  /** A character inside a string: the seven short escapes, `\u00XX` for the other control
      characters, and everything else as it is. */
  function EscapeChar(c: char): string {
    if c == '"' then "\\\""
    else if c == '\\' then "\\\\"
    else if c == '\U{8}' then "\\b"
    else if c == '\t' then "\\t"
    else if c == '\n' then "\\n"
    else if c == '\U{C}' then "\\f"
    else if c == '\r' then "\\r"
    else if c < ' ' then "\\u00" + [HexDigit(c as nat / 16), HexDigit(c as nat % 16)]
    else [c]
  }

  function Escape(s: string): string {
    if s == [] then "" else EscapeChar(s[0]) + Escape(s[1..])
  }

  function Quote(s: string): string {
    "\"" + Escape(s) + "\""
  }

  /** The texts one after the other, with commas between them. */
  function Commas(texts: seq<string>): string {
    if texts == [] then ""
    else if |texts| == 1 then texts[0]
    else texts[0] + "," + Commas(texts[1..])
  }

  /** Trees whose numbers are integers. */
  predicate Integral(j: Json) {
    match j
    case Number(_, e) => e == 0
    case Arr(items) => forall i | 0 <= i < |items| :: Integral(items[i])
    case Obj(members) => forall i | 0 <= i < |members| :: Integral(members[i].1)
    case _ => true
  }

  function Encode(j: Json): string
    requires Integral(j)
  {
    match j
    case Null => "null"
    case Bool(b) => if b then "true" else "false"
    case Number(m, _) => Decimal.IntText(m)
    case Str(text) => Quote(text)
    case Arr(items) => "[" + Commas(seq(|items|, i requires 0 <= i < |items| => Encode(items[i]))) + "]"
    case Obj(members) =>
      "{" + Commas(seq(|members|, i requires 0 <= i < |members| => Quote(members[i].0) + ":" + Encode(members[i].1))) + "}"
  }

  // ---------------------------------------------------------------------------
  // Decoding: sections 2 to 7 of RFC 8259
  // ---------------------------------------------------------------------------

  predicate IsWs(c: char) {
    c == ' ' || c == '\t' || c == '\n' || c == '\r'
  }

  function SkipWs(s: string): (t: string)
    ensures |t| <= |s|
  {
    if s != [] && IsWs(s[0]) then SkipWs(s[1..]) else s
  }

  predicate StartsWith(s: string, prefix: string) {
    |s| >= |prefix| && s[..|prefix|] == prefix
  }

  function HexValue(c: char): (r: Option<nat>)
    ensures r.Some? ==> r.value < 16
  {
    if '0' <= c <= '9' then Some((c - '0') as nat)
    else if 'a' <= c <= 'f' then Some((c - 'a') as nat + 10)
    else if 'A' <= c <= 'F' then Some((c - 'A') as nat + 10)
    else None
  }

  /** The code unit of four hexadecimal digits. */
  function Hex4(s: string): (r: Option<nat>)
    ensures r.Some? ==> |s| >= 4 && r.value < 0x10000
  {
    if |s| < 4 then None
    else
      var a, b, c, d := HexValue(s[0]), HexValue(s[1]), HexValue(s[2]), HexValue(s[3]);
      if a.None? || b.None? || c.None? || d.None? then None
      else Some(a.value * 0x1000 + b.value * 0x100 + c.value * 0x10 + d.value)
  }

  /** The character of an escape, from the letter after the backslash on, and what follows. A
      surrogate must be paired. */
  function Unescape(s: string): (r: Option<(char, string)>)
    ensures r.Some? ==> |r.value.1| < |s|
  {
    if s == [] then None
    else if s[0] == '"' || s[0] == '\\' || s[0] == '/' then Some((s[0], s[1..]))
    else if s[0] == 'b' then Some(('\U{8}', s[1..]))
    else if s[0] == 'f' then Some(('\U{C}', s[1..]))
    else if s[0] == 'n' then Some(('\n', s[1..]))
    else if s[0] == 'r' then Some(('\r', s[1..]))
    else if s[0] == 't' then Some(('\t', s[1..]))
    else if s[0] == 'u' then UnescapeUnit(s[1..])
    else None
  }

  function UnescapeUnit(s: string): (r: Option<(char, string)>)
    ensures r.Some? ==> |r.value.1| < |s|
  {
    var unit := Hex4(s);
    if unit.None? then None
    else if unit.value < 0xD800 || unit.value >= 0xE000 then Some((unit.value as char, s[4..]))
    else if unit.value >= 0xDC00 || |s| < 6 || s[4] != '\\' || s[5] != 'u' then None
    else
      var low := Hex4(s[6..]);
      if low.None? || !(0xDC00 <= low.value < 0xE000) then None
      else Some(((0x10000 + (unit.value - 0xD800) * 0x400 + (low.value - 0xDC00)) as char, s[10..]))
  }

  /** A string from behind its opening quote, and what follows the closing one. */
  function DecodeString(s: string): (r: Option<(string, string)>)
    ensures r.Some? ==> |r.value.1| < |s|
    decreases |s|
  {
    if s == [] || s[0] < ' ' then None
    else if s[0] == '"' then Some(("", s[1..]))
    else if s[0] == '\\' then
      var u := Unescape(s[1..]);
      if u.None? then None
      else
        var rest := DecodeString(u.value.1);
        if rest.None? then None else Some(([u.value.0] + rest.value.0, rest.value.1))
    else
      var rest := DecodeString(s[1..]);
      if rest.None? then None else Some((s[..1] + rest.value.0, rest.value.1))
  }

  /** Number of digits at the front. */
  function DigitRun(s: string): (n: nat)
    ensures n <= |s| && Decimal.AllDigits(s[..n]) && (n < |s| ==> !Decimal.IsDigit(s[n]))
  {
    if s == [] || !Decimal.IsDigit(s[0]) then 0
    else
      var n := DigitRun(s[1..]);
      assert s[..n + 1] == s[..1] + s[1..][..n];
      n + 1
  }

  /** The digits after a decimal point, if there is one. */
  function Fraction(s: string): (r: Option<(string, string)>)
    ensures r.Some? ==> Decimal.AllDigits(r.value.0) && |r.value.1| <= |s|
  {
    if s == [] || s[0] != '.' then Some(("", s))
    else
      var n := DigitRun(s[1..]);
      if n == 0 then None else Some((s[1..][..n], s[1..][n..]))
  }

  function Exponent(s: string): (r: Option<(int, string)>)
    ensures r.Some? ==> |r.value.1| <= |s|
  {
    if s == [] || (s[0] != 'e' && s[0] != 'E') then Some((0, s))
    else
      var signed := |s| > 1 && (s[1] == '-' || s[1] == '+');
      var t := if signed then s[2..] else s[1..];
      var n := DigitRun(t);
      if n == 0 then None
      else
        var e: int := Decimal.Value(t[..n]);
        Some((if signed && s[1] == '-' then -e else e, t[n..]))
  }

  /** A number without its sign: mantissa, exponent and what follows. */
  function DecodeMagnitude(s: string): (r: Option<(nat, int, string)>)
    ensures r.Some? ==> |r.value.2| < |s|
  {
    var n := DigitRun(s);
    if n == 0 || (n > 1 && s[0] == '0') then None
    else
      var f := Fraction(s[n..]);
      if f.None? then None
      else
        var e := Exponent(f.value.1);
        if e.None? then None
        else Some((Decimal.Value(s[..n] + f.value.0), e.value.0 - |f.value.0|, e.value.1))
  }

  function DecodeNumber(s: string): (r: Option<(Json, string)>)
    ensures r.Some? ==> |r.value.1| < |s|
  {
    var negative := s != [] && s[0] == '-';
    var r := DecodeMagnitude(if negative then s[1..] else s);
    if r.None? then None
    else
      var m: int := r.value.0;
      Some((Number(if negative then -m else m, r.value.1), r.value.2))
  }

  function DecodeValue(s: string): (r: Option<(Json, string)>)
    ensures r.Some? ==> |r.value.1| < |s|
    decreases |s|, 0
  {
    var t := SkipWs(s);
    if t == [] then None
    else if t[0] == '"' then
      var r := DecodeString(t[1..]);
      if r.None? then None else Some((Str(r.value.0), r.value.1))
    else if t[0] == '[' then
      var u := SkipWs(t[1..]);
      if u != [] && u[0] == ']' then Some((Arr([]), u[1..]))
      else
        var r := DecodeItems(t[1..]);
        if r.None? then None else Some((Arr(r.value.0), r.value.1))
    else if t[0] == '{' then
      var u := SkipWs(t[1..]);
      if u != [] && u[0] == '}' then Some((Obj([]), u[1..]))
      else
        var r := DecodeMembers(t[1..]);
        if r.None? then None else Some((Obj(r.value.0), r.value.1))
    else if StartsWith(t, "null") then Some((Null, t[4..]))
    else if StartsWith(t, "true") then Some((Bool(true), t[4..]))
    else if StartsWith(t, "false") then Some((Bool(false), t[5..]))
    else DecodeNumber(t)
  }

  /** One or more items and the closing bracket. */
  function DecodeItems(s: string): (r: Option<(seq<Json>, string)>)
    ensures r.Some? ==> |r.value.1| < |s|
    decreases |s|, 1
  {
    var first := DecodeValue(s);
    if first.None? then None
    else
      var t := SkipWs(first.value.1);
      if t == [] then None
      else if t[0] == ']' then Some(([first.value.0], t[1..]))
      else if t[0] != ',' then None
      else
        var more := DecodeItems(t[1..]);
        if more.None? then None else Some(([first.value.0] + more.value.0, more.value.1))
  }

  /** A key, the colon and the value. */
  function DecodeMember(s: string): (r: Option<((string, Json), string)>)
    ensures r.Some? ==> |r.value.1| < |s|
    decreases |s|, 1
  {
    var t := SkipWs(s);
    if t == [] || t[0] != '"' then None
    else
      var key := DecodeString(t[1..]);
      if key.None? then None
      else
        var u := SkipWs(key.value.1);
        if u == [] || u[0] != ':' then None
        else
          var v := DecodeValue(u[1..]);
          if v.None? then None else Some(((key.value.0, v.value.0), v.value.1))
  }

  /** One or more members and the closing brace. */
  function DecodeMembers(s: string): (r: Option<(seq<(string, Json)>, string)>)
    ensures r.Some? ==> |r.value.1| < |s|
    decreases |s|, 2
  {
    var first := DecodeMember(s);
    if first.None? then None
    else
      var t := SkipWs(first.value.1);
      if t == [] then None
      else if t[0] == '}' then Some(([first.value.0], t[1..]))
      else if t[0] != ',' then None
      else
        var more := DecodeMembers(t[1..]);
        if more.None? then None else Some(([first.value.0] + more.value.0, more.value.1))
  }

  /** A whole text: one value with white space around it. */
  function Decode(s: string): Option<Json> {
    var v := DecodeValue(s);
    if v.None? || SkipWs(v.value.1) != [] then None else Some(v.value.0)
  }

  // ---------------------------------------------------------------------------
  // Strings round trip
  // ---------------------------------------------------------------------------

  lemma HexRoundTrip(n: nat)
    requires n < 16
    ensures HexValue(HexDigit(n)) == Some(n)
  {
  }

  lemma EscapeCharControl(c: char, tail: string)
    requires c < ' '
    ensures UnescapeUnit("00" + [HexDigit(c as nat / 16), HexDigit(c as nat % 16)] + tail) == Some((c, tail))
  {
    var n := c as nat;
    var s := "00" + [HexDigit(n / 16), HexDigit(n % 16)] + tail;
    HexRoundTrip(n / 16);
    HexRoundTrip(n % 16);
    assert s[0] == '0' && s[1] == '0' && s[2] == HexDigit(n / 16) && s[3] == HexDigit(n % 16);
    assert n / 16 * 16 + n % 16 == n;
    assert s[4..] == tail;
  }

  /** The first character of an escaped string is decoded back to it. */
  lemma EscapeCharRoundTrip(c: char, tail: string)
    ensures var s := EscapeChar(c) + tail;
      && s != [] && s[0] >= ' ' && s[0] != '"'
      && (s[0] == '\\' ==> Unescape(s[1..]) == Some((c, tail)))
      && (s[0] != '\\' ==> s[..1] == [c] && s[1..] == tail)
  {
    var s := EscapeChar(c) + tail;
    if s[0] == '\\' {
      if |EscapeChar(c)| == 2 {
        assert s[1..][1..] == tail;
      } else {
        var u := "00" + [HexDigit(c as nat / 16), HexDigit(c as nat % 16)] + tail;
        assert s[1..] == "u" + u;
        assert s[1..][1..] == u;
        EscapeCharControl(c, tail);
      }
    } else {
      assert EscapeChar(c) == [c];
    }
  }

  lemma {:induction false} StringRoundTrip(v: string, rest: string)
    ensures DecodeString(Escape(v) + "\"" + rest) == Some((v, rest))
  {
    if v == [] {
      assert (Escape(v) + "\"" + rest)[1..] == rest;
    } else {
      var tail := Escape(v[1..]) + "\"" + rest;
      StringRoundTrip(v[1..], rest);
      assert Escape(v) + "\"" + rest == EscapeChar(v[0]) + tail;
      EscapeCharRoundTrip(v[0], tail);
      assert [v[0]] + v[1..] == v;
    }
  }

  // ---------------------------------------------------------------------------
  // Numbers round trip
  // ---------------------------------------------------------------------------

  /** What may follow a value in the encoder's output. */
  predicate Delimited(rest: string) {
    rest == [] || rest[0] == ',' || rest[0] == ']' || rest[0] == '}' || rest[0] == '\n'
  }

  lemma {:induction false} DigitRunOf(digits: string, rest: string)
    requires Decimal.AllDigits(digits) && (rest != [] ==> !Decimal.IsDigit(rest[0]))
    ensures DigitRun(digits + rest) == |digits|
  {
    if digits == [] {
      assert digits + rest == rest;
    } else {
      assert (digits + rest)[1..] == digits[1..] + rest;
      DigitRunOf(digits[1..], rest);
    }
  }

  lemma MagnitudeRoundTrip(n: nat, rest: string)
    requires Delimited(rest)
    ensures DecodeMagnitude(Decimal.Text(n) + rest) == Some((n, 0, rest))
  {
    var digits := Decimal.Text(n);
    var s := digits + rest;
    DigitRunOf(digits, rest);
    Decimal.ValueOfText(n);
    assert s[..|digits|] == digits && s[|digits|..] == rest && s[0] == digits[0];
    assert Fraction(rest) == Some(("", rest)) && Exponent(rest) == Some((0, rest));
    assert digits + "" == digits;
  }

  lemma BehindSign(digits: string, rest: string)
    ensures var s := "-" + digits + rest; s[0] == '-' && s[1..] == digits + rest
  {
  }

  lemma NumberRoundTrip(m: int, rest: string)
    requires Delimited(rest)
    ensures DecodeNumber(Decimal.IntText(m) + rest) == Some((Number(m, 0), rest))
  {
    hide DecodeMagnitude;
    if m < 0 {
      MagnitudeRoundTrip(-m, rest);
      BehindSign(Decimal.Text(-m), rest);
    } else {
      MagnitudeRoundTrip(m, rest);
      assert (Decimal.Text(m) + rest)[0] == Decimal.Text(m)[0];
    }
  }

  // ---------------------------------------------------------------------------
  // Values round trip
  // ---------------------------------------------------------------------------

  /** The text decodes to the value wherever a delimiter follows, and does not start like
      white space or like the end of a list. */
  ghost predicate Decodes(text: string, j: Json) {
    && text != [] && !IsWs(text[0]) && text[0] != ']' && text[0] != '}'
    && forall rest | Delimited(rest) :: DecodeValue(text + rest) == Some((j, rest))
  }

  ghost predicate MemberDecodes(text: string, key: string, j: Json) {
    && text != [] && text[0] == '"'
    && forall rest | Delimited(rest) :: DecodeMember(text + rest) == Some(((key, j), rest))
  }

  lemma LiteralDecodes(word: string, j: Json)
    requires (word == "null" && j == Null) || (word == "true" && j == Bool(true)) || (word == "false" && j == Bool(false))
    ensures Decodes(word, j)
  {
    forall rest | Delimited(rest) ensures DecodeValue(word + rest) == Some((j, rest)) {
      var s := word + rest;
      assert s[..|word|] == word && s[|word|..] == rest && s[0] == word[0];
    }
  }

  lemma NumberDecodes(m: int)
    ensures Decodes(Decimal.IntText(m), Number(m, 0))
  {
    var text := Decimal.IntText(m);
    assert text[0] == '-' || Decimal.IsDigit(text[0]);
    forall rest | Delimited(rest) ensures DecodeValue(text + rest) == Some((Number(m, 0), rest)) {
      NumberRoundTrip(m, rest);
      assert (text + rest)[0] == text[0];
    }
  }

  lemma QuoteSplit(v: string, rest: string)
    ensures var s := Quote(v) + rest;
      s != [] && s[0] == '"' && SkipWs(s) == s && DecodeString(s[1..]) == Some((v, rest))
  {
    var s := Quote(v) + rest;
    assert s[1..] == Escape(v) + "\"" + rest;
    StringRoundTrip(v, rest);
  }

  lemma StringDecodes(v: string)
    ensures Decodes(Quote(v), Str(v))
  {
    forall rest | Delimited(rest) ensures DecodeValue(Quote(v) + rest) == Some((Str(v), rest)) {
      QuoteSplit(v, rest);
    }
  }

  lemma MemberText(key: string, text: string, j: Json)
    requires Decodes(text, j)
    ensures MemberDecodes(Quote(key) + ":" + text, key, j)
  {
    hide DecodeValue;
    hide DecodeString;
    var whole := Quote(key) + ":" + text;
    forall rest | Delimited(rest) ensures DecodeMember(whole + rest) == Some(((key, j), rest)) {
      var after := ":" + text + rest;
      assert whole + rest == Quote(key) + after;
      QuoteSplit(key, after);
      assert after[1..] == text + rest;
    }
  }

  lemma LastItem(text: string, j: Json, rest: string)
    requires Decodes(text, j)
    ensures DecodeItems(text + ("]" + rest)) == Some(([j], rest))
  {
    var after := "]" + rest;
    assert Delimited(after) && SkipWs(after) == after && after[1..] == rest;
  }

  lemma NextItem(text: string, j: Json, tail: string, items: seq<Json>, rest: string)
    requires Decodes(text, j) && DecodeItems(tail) == Some((items, rest))
    ensures DecodeItems(text + ("," + tail)) == Some(([j] + items, rest))
  {
    var after := "," + tail;
    assert Delimited(after) && SkipWs(after) == after && after[1..] == tail;
  }

  lemma LastMember(text: string, key: string, j: Json, rest: string)
    requires MemberDecodes(text, key, j)
    ensures DecodeMembers(text + ("}" + rest)) == Some(([(key, j)], rest))
  {
    var after := "}" + rest;
    assert Delimited(after) && SkipWs(after) == after && after[1..] == rest;
  }

  lemma NextMember(text: string, key: string, j: Json, tail: string, members: seq<(string, Json)>, rest: string)
    requires MemberDecodes(text, key, j) && DecodeMembers(tail) == Some((members, rest))
    ensures DecodeMembers(text + ("," + tail)) == Some(([(key, j)] + members, rest))
  {
    var after := "," + tail;
    assert Delimited(after) && SkipWs(after) == after && after[1..] == tail;
  }

  lemma Regroup(x: string, y: string, z: string, close: string, rest: string)
    ensures x + y + z + close + rest == x + (y + (z + close + rest))
  {
    Associate(x + y + z, close, rest);
    Associate(x + y, z, close + rest);
    Associate(z, close, rest);
    Associate(x, y, z + close + rest);
  }

  lemma CommasSplit(texts: seq<string>, close: string, rest: string)
    requires texts != []
    ensures |texts| == 1 ==> Commas(texts) + close + rest == texts[0] + (close + rest)
    ensures |texts| > 1 ==> Commas(texts) + close + rest == texts[0] + ("," + (Commas(texts[1..]) + close + rest))
  {
    if |texts| == 1 {
      Associate(texts[0], close, rest);
    } else {
      Regroup(texts[0], ",", Commas(texts[1..]), close, rest);
    }
  }

  lemma {:induction false} ItemsDecode(texts: seq<string>, items: seq<Json>, rest: string)
    requires |texts| == |items| > 0
    requires forall i | 0 <= i < |items| :: Decodes(texts[i], items[i])
    ensures DecodeItems(Commas(texts) + "]" + rest) == Some((items, rest))
  {
    hide DecodeItems;
    hide Decodes;
    hide Commas;
    CommasSplit(texts, "]", rest);
    if |texts| == 1 {
      LastItem(texts[0], items[0], rest);
      assert [items[0]] == items;
    } else {
      ItemsDecode(texts[1..], items[1..], rest);
      NextItem(texts[0], items[0], Commas(texts[1..]) + "]" + rest, items[1..], rest);
      assert [items[0]] + items[1..] == items;
    }
  }

  lemma {:induction false} MembersDecode(texts: seq<string>, members: seq<(string, Json)>, rest: string)
    requires |texts| == |members| > 0
    requires forall i | 0 <= i < |members| :: MemberDecodes(texts[i], members[i].0, members[i].1)
    ensures DecodeMembers(Commas(texts) + "}" + rest) == Some((members, rest))
  {
    hide DecodeMembers;
    hide MemberDecodes;
    hide Commas;
    CommasSplit(texts, "}", rest);
    if |texts| == 1 {
      LastMember(texts[0], members[0].0, members[0].1, rest);
      assert [members[0]] == members;
    } else {
      MembersDecode(texts[1..], members[1..], rest);
      NextMember(texts[0], members[0].0, members[0].1, Commas(texts[1..]) + "}" + rest, members[1..], rest);
      assert [members[0]] + members[1..] == members;
    }
  }

  lemma FirstOfCommas(texts: seq<string>)
    requires texts != [] && texts[0] != []
    ensures Commas(texts) != [] && Commas(texts)[0] == texts[0][0]
  {
  }

  lemma ArrayAt(texts: seq<string>, items: seq<Json>, inner: string, rest: string)
    requires |texts| == |items| && inner == Commas(texts) + "]" + rest
    requires forall i | 0 <= i < |items| :: Decodes(texts[i], items[i])
    ensures DecodeValue("[" + inner) == Some((Arr(items), rest))
  {
    assert ("[" + inner)[1..] == inner;
    if items == [] {
      assert inner == "]" + rest;
      assert inner[1..] == rest;
    } else {
      assert Decodes(texts[0], items[0]);
      FirstOfCommas(texts);
      hide Decodes;
      hide DecodeItems;
      hide Commas;
      assert inner[0] == texts[0][0];
      ItemsDecode(texts, items, rest);
    }
  }

  lemma ObjectAt(texts: seq<string>, members: seq<(string, Json)>, inner: string, rest: string)
    requires |texts| == |members| && inner == Commas(texts) + "}" + rest
    requires forall i | 0 <= i < |members| :: MemberDecodes(texts[i], members[i].0, members[i].1)
    ensures DecodeValue("{" + inner) == Some((Obj(members), rest))
  {
    assert ("{" + inner)[1..] == inner;
    if members == [] {
      assert inner == "}" + rest;
      assert inner[1..] == rest;
    } else {
      assert MemberDecodes(texts[0], members[0].0, members[0].1);
      FirstOfCommas(texts);
      hide MemberDecodes;
      hide DecodeMembers;
      hide Commas;
      assert inner[0] == texts[0][0];
      MembersDecode(texts, members, rest);
    }
  }

  lemma Wrapped(open: string, inner: string, close: string, rest: string)
    ensures open + inner + close + rest == open + (inner + close + rest)
  {
    Associate(open + inner, close, rest);
    Associate(open, inner, close + rest);
    Associate(inner, close, rest);
  }

  lemma ArrayDecodes(texts: seq<string>, items: seq<Json>)
    requires |texts| == |items|
    requires forall i | 0 <= i < |items| :: Decodes(texts[i], items[i])
    ensures Decodes("[" + Commas(texts) + "]", Arr(items))
  {
    var text := "[" + Commas(texts) + "]";
    forall rest | Delimited(rest) ensures DecodeValue(text + rest) == Some((Arr(items), rest)) {
      var inner := Commas(texts) + "]" + rest;
      Wrapped("[", Commas(texts), "]", rest);
      ArrayAt(texts, items, inner, rest);
    }
  }

  lemma ObjectDecodes(texts: seq<string>, members: seq<(string, Json)>)
    requires |texts| == |members|
    requires forall i | 0 <= i < |members| :: MemberDecodes(texts[i], members[i].0, members[i].1)
    ensures Decodes("{" + Commas(texts) + "}", Obj(members))
  {
    var text := "{" + Commas(texts) + "}";
    forall rest | Delimited(rest) ensures DecodeValue(text + rest) == Some((Obj(members), rest)) {
      var inner := Commas(texts) + "}" + rest;
      Wrapped("{", Commas(texts), "}", rest);
      ObjectAt(texts, members, inner, rest);
    }
  }

  /** Every encoded tree decodes to itself, wherever it stands. */
  lemma {:induction false} EncodeDecodes(j: Json)
    requires Integral(j)
    ensures Decodes(Encode(j), j)
  {
    match j
    case Null => LiteralDecodes("null", j);
    case Bool(b) => LiteralDecodes(if b then "true" else "false", j);
    case Number(m, e) => NumberDecodes(m);
    case Str(text) => StringDecodes(text);
    case Arr(items) =>
      forall i | 0 <= i < |items| ensures Decodes(Encode(items[i]), items[i]) {
        EncodeDecodes(items[i]);
      }
      ArrayDecodes(seq(|items|, i requires 0 <= i < |items| => Encode(items[i])), items);
    case Obj(members) =>
      forall i | 0 <= i < |members|
        ensures MemberDecodes(Quote(members[i].0) + ":" + Encode(members[i].1), members[i].0, members[i].1)
      {
        EncodeDecodes(members[i].1);
        MemberText(members[i].0, Encode(members[i].1), members[i].1);
      }
      ObjectDecodes(
        seq(|members|, i requires 0 <= i < |members| => Quote(members[i].0) + ":" + Encode(members[i].1)), members);
  }

  /** An encoded tree on a line of its own decodes to the tree. */
  lemma RoundTrip(j: Json)
    requires Integral(j)
    ensures Decode(Encode(j)) == Some(j)
    ensures Decode(Encode(j) + "\n") == Some(j)
  {
    EncodeDecodes(j);
    assert Encode(j) + "" == Encode(j);
    assert SkipWs("\n") == [];
  }

  // ---------------------------------------------------------------------------
  // No raw newline
  // ---------------------------------------------------------------------------

  lemma {:induction false} EscapeNoNewline(s: string)
    ensures '\n' !in Escape(s)
  {
    if s != [] {
      EscapeNoNewline(s[1..]);
    }
  }

  lemma {:induction false} CommasNoNewline(texts: seq<string>)
    requires forall i | 0 <= i < |texts| :: '\n' !in texts[i]
    ensures '\n' !in Commas(texts)
  {
    if |texts| > 1 {
      CommasNoNewline(texts[1..]);
    }
  }

  lemma {:induction false} EncodeNoNewline(j: Json)
    requires Integral(j)
    ensures '\n' !in Encode(j)
  {
    match j
    case Null =>
    case Bool(b) =>
    case Number(m, e) =>
    case Str(text) => EscapeNoNewline(text);
    case Arr(items) =>
      forall i | 0 <= i < |items| ensures '\n' !in Encode(items[i]) {
        EncodeNoNewline(items[i]);
      }
      CommasNoNewline(seq(|items|, i requires 0 <= i < |items| => Encode(items[i])));
    case Obj(members) =>
      forall i | 0 <= i < |members| ensures '\n' !in Quote(members[i].0) + ":" + Encode(members[i].1) {
        EscapeNoNewline(members[i].0);
        EncodeNoNewline(members[i].1);
      }
      CommasNoNewline(
        seq(|members|, i requires 0 <= i < |members| => Quote(members[i].0) + ":" + Encode(members[i].1)));
  }

  // ---------------------------------------------------------------------------
  // The exact text
  // ---------------------------------------------------------------------------

  /** Escaping is minimal: printable characters stand for themselves, except the quote and
      the backslash; seven characters have a short escape; the other control characters are
      written with four lower-case hexadecimal digits. */
  lemma EscapesAre(c: char)
    ensures c >= ' ' && c != '"' && c != '\\' ==> EscapeChar(c) == [c]
    ensures EscapeChar('"') == ['\\', '"'] && EscapeChar('\\') == ['\\', '\\']
    ensures EscapeChar('\n') == ['\\', 'n'] && EscapeChar('\r') == ['\\', 'r'] && EscapeChar('\t') == ['\\', 't']
    ensures EscapeChar('\U{8}') == ['\\', 'b'] && EscapeChar('\U{C}') == ['\\', 'f']
    ensures c < ' ' && c != '\n' && c != '\r' && c != '\t' && c != '\U{8}' && c != '\U{C}' ==>
      var n := c as nat;
      && |EscapeChar(c)| == 6 && EscapeChar(c)[..5] == ['\\', 'u', '0', '0', if n < 16 then '0' else '1']
      && EscapeChar(c)[5] == "0123456789abcdef"[n % 16]
  {
  }

  lemma {:induction false} CommasMore(texts: seq<string>, text: string)
    ensures Commas([text]) == text
    ensures texts != [] ==> Commas(texts + [text]) == Commas(texts) + "," + text
  {
    if |texts| == 1 {
      assert (texts + [text])[1..] == [text];
    } else if |texts| > 1 {
      CommasMore(texts[1..], text);
      assert (texts + [text])[1..] == texts[1..] + [text];
      Regroup(texts[0], ",", Commas(texts[1..]), ",", text);
      Associate(texts[0] + ",", Commas(texts[1..]) + ",", text);
    }
  }

  /** The other values: three words, plain decimal numbers, and quoted strings. */
  lemma AtomTexts(m: int, text: string)
    ensures Encode(Null) == "null" && Encode(Bool(true)) == "true" && Encode(Bool(false)) == "false"
    ensures Encode(Number(m, 0)) == Decimal.IntText(m)
    ensures Encode(Str(text)) == "\"" + Escape(text) + "\""
  {
  }

  lemma BetweenBrackets(open: string, inner: string, close: string)
    requires |open| == |close| == 1
    ensures |open + inner + close| == |inner| + 2 && (open + inner + close)[..|inner| + 1] == open + inner
  {
  }

  /** Arrays are compact: nothing but the brackets, the items and one comma between two. */
  lemma CompactArray(items: seq<Json>, item: Json)
    requires Integral(Arr(items)) && Integral(Arr(items + [item])) && Integral(item)
    ensures Encode(Arr([])) == "[]"
    ensures var before, after := Encode(Arr(items)), Encode(Arr(items + [item]));
      && |before| >= 2
      && after == (if items == [] then "[" else before[..|before| - 1] + ",") + Encode(item) + "]"
  {
    var all := items + [item];
    var texts := seq(|items|, i requires 0 <= i < |items| => Encode(items[i]));
    var more := seq(|all|, i requires 0 <= i < |all| => Encode(all[i]));
    assert more == texts + [Encode(item)];
    CommasMore(texts, Encode(item));
    BetweenBrackets("[", Commas(texts), "]");
    CompactStep("[", texts, Encode(item), "]");
  }

  /** Objects likewise, with a colon between key and value. */
  lemma CompactObject(members: seq<(string, Json)>, key: string, value: Json)
    requires Integral(Obj(members)) && Integral(Obj(members + [(key, value)])) && Integral(value)
    ensures Encode(Obj([])) == "{}"
    ensures var before, after := Encode(Obj(members)), Encode(Obj(members + [(key, value)]));
      && |before| >= 2
      && after == (if members == [] then "{" else before[..|before| - 1] + ",") + (Quote(key) + ":" + Encode(value)) + "}"
  {
    var all := members + [(key, value)];
    var texts := seq(|members|, i requires 0 <= i < |members| => Quote(members[i].0) + ":" + Encode(members[i].1));
    var more := seq(|all|, i requires 0 <= i < |all| => Quote(all[i].0) + ":" + Encode(all[i].1));
    assert more == texts + [Quote(key) + ":" + Encode(value)];
    CommasMore(texts, Quote(key) + ":" + Encode(value));
    BetweenBrackets("{", Commas(texts), "}");
    CompactStep("{", texts, Quote(key) + ":" + Encode(value), "}");
  }

  lemma CompactStep(open: string, texts: seq<string>, text: string, close: string)
    ensures open + Commas(texts + [text]) + close ==
      (if texts == [] then open else open + Commas(texts) + ",") + text + close
  {
    CommasMore(texts, text);
    if texts == [] {
      assert texts + [text] == [text];
    } else {
      Associate(open, Commas(texts) + ",", text);
      Associate(open, Commas(texts), ",");
    }
  }
}
