/** The gRPC status operator: reading the raw header value and naming the code. */
module Grpc {
  import opened Common
  import opened CommandOperator
  import Decimal

  const NAMES: seq<(string, string)> := [
    ("OK", "OK"),
    ("Canceled", "CANCELLED"),
    ("Unknown", "UNKNOWN"),
    ("InvalidArgument", "INVALID_ARGUMENT"),
    ("DeadlineExceeded", "DEADLINE_EXCEEDED"),
    ("NotFound", "NOT_FOUND"),
    ("AlreadyExists", "ALREADY_EXISTS"),
    ("PermissionDenied", "PERMISSION_DENIED"),
    ("ResourceExhausted", "RESOURCE_EXHAUSTED"),
    ("FailedPrecondition", "FAILED_PRECONDITION"),
    ("Aborted", "ABORTED"),
    ("OutOfRange", "OUT_OF_RANGE"),
    ("Unimplemented", "UNIMPLEMENTED"),
    ("Internal", "INTERNAL"),
    ("Unavailable", "UNAVAILABLE"),
    ("DataLoss", "DATA_LOSS"),
    ("Unauthenticated", "UNAUTHENTICATED")
  ]

  const TWO_63: int := 0x8000_0000_0000_0000

  /** The Unicode white space that trimming removes. */
  predicate IsSpace(c: char) {
    || '\U{0009}' <= c <= '\U{000D}' || c == ' ' || c == '\U{0085}' || c == '\U{00A0}' || c == '\U{1680}'
    || '\U{2000}' <= c <= '\U{200A}' || c == '\U{2028}' || c == '\U{2029}' || c == '\U{202F}'
    || c == '\U{205F}' || c == '\U{3000}'
  }

  predicate AllSpace(s: string) {
    forall i | 0 <= i < |s| :: IsSpace(s[i])
  }

  function TrimStart(s: string): string {
    if s != [] && IsSpace(s[0]) then TrimStart(s[1..]) else s
  }

  function TrimEnd(s: string): string {
    if s != [] && IsSpace(s[|s| - 1]) then TrimEnd(s[..|s| - 1]) else s
  }

  function Trim(s: string): string { TrimEnd(TrimStart(s)) }

  /** Signed decimal text in the range of `i64`. */
  function ParseI64(s: string): Option<int> {
    var signed := s != [] && (s[0] == '-' || s[0] == '+');
    var digits := if signed then s[1..] else s;
    if digits == [] || !Decimal.AllDigits(digits) then None
    else
      var magnitude: int := Decimal.Value(digits);
      var n := if signed && s[0] == '-' then -magnitude else magnitude;
      if -TWO_63 <= n < TWO_63 then Some(n) else None
  }

  /** The code of a raw header value; anything unreadable is -1. */
  function StatusCode(raw: string): (code: int)
    ensures -TWO_63 <= code < TWO_63
  {
    var n := ParseI64(Trim(raw));
    if n.Some? then n.value else -1
  }

  function RenderStatus(raw: string, format: GrpcFormat): string {
    var code := StatusCode(raw);
    if format.Number? || !(0 <= code < |NAMES|) then Decimal.IntText(code)
    else if format.CamelString? then NAMES[code].0 else NAMES[code].1
  }

  lemma {:induction false} TrimStartDrops(pad: string, s: string)
    requires AllSpace(pad) && (s != [] ==> !IsSpace(s[0]))
    ensures TrimStart(pad + s) == s
  {
    if pad == [] {
      assert pad + s == s;
    } else {
      assert (pad + s)[1..] == pad[1..] + s;
      TrimStartDrops(pad[1..], s);
    }
  }

  lemma {:induction false} TrimEndDrops(s: string, pad: string)
    requires AllSpace(pad) && (s != [] ==> !IsSpace(s[|s| - 1]))
    ensures TrimEnd(s + pad) == s
  {
    if pad == [] {
      assert s + pad == s;
    } else {
      var n := |s + pad| - 1;
      assert (s + pad)[..n] == s + pad[..|pad| - 1];
      TrimEndDrops(s, pad[..|pad| - 1]);
    }
  }

  predicate IsSign(sign: string) {
    sign == "" || sign == "+" || sign == "-"
  }

  /** The code that signed digits spell; out of the range of `i64` they are unreadable. */
  function Spelled(sign: string, digits: string): int
    requires Decimal.AllDigits(digits)
  {
    var magnitude: int := Decimal.Value(digits);
    var n := if sign == "-" then -magnitude else magnitude;
    if -TWO_63 <= n < TWO_63 then n else -1
  }

  lemma SignedEnds(sign: string, digits: string)
    requires IsSign(sign) && digits != [] && Decimal.AllDigits(digits)
    ensures var t := sign + digits; t != [] && !IsSpace(t[0]) && !IsSpace(t[|t| - 1])
  {
    assert (sign + digits)[|sign + digits| - 1] == digits[|digits| - 1];
    assert sign == "" ==> sign + digits == digits;
  }

  lemma SignedParses(sign: string, digits: string)
    requires IsSign(sign) && digits != [] && Decimal.AllDigits(digits)
    ensures var r := ParseI64(sign + digits); (if r.Some? then r.value else -1) == Spelled(sign, digits)
  {
    if sign == "" {
      assert sign + digits == digits;
    } else {
      assert (sign + digits)[1..] == digits && (sign + digits)[0] == sign[0];
    }
  }

  lemma TrimDrops(before: string, t: string, after: string)
    requires AllSpace(before) && AllSpace(after) && t != [] && !IsSpace(t[0]) && !IsSpace(t[|t| - 1])
    ensures Trim(before + t + after) == t
  {
    Associate(before, t, after);
    TrimStartDrops(before, t + after);
    TrimEndDrops(t, after);
  }

  lemma StatusCodeMeans(before: string, sign: string, digits: string, after: string)
    requires AllSpace(before) && AllSpace(after)
    requires IsSign(sign) && digits != [] && Decimal.AllDigits(digits)
    ensures StatusCode(before + (sign + digits) + after) == Spelled(sign, digits)
  {
    hide ParseI64;
    hide Trim;
    SignedEnds(sign, digits);
    SignedParses(sign, digits);
    TrimDrops(before, sign + digits, after);
  }

  /** The text is decimal digits with an optional sign and white space around it, and they
      spell this code. */
  ghost predicate Writes(raw: string, code: int) {
    exists before, sign, digits, after ::
      && AllSpace(before) && AllSpace(after) && IsSign(sign) && digits != [] && Decimal.AllDigits(digits)
      && raw == before + (sign + digits) + after && code == Spelled(sign, digits)
  }

  lemma {:induction false} TrimStartSplits(s: string) returns (pad: string)
    ensures s == pad + TrimStart(s) && AllSpace(pad)
  {
    pad := "";
    if s != [] && IsSpace(s[0]) {
      var more := TrimStartSplits(s[1..]);
      pad := s[..1] + more;
      assert s == s[..1] + s[1..];
      Associate(s[..1], more, TrimStart(s[1..]));
      assert AllSpace(s[..1]);
    } else {
      assert s == "" + s;
    }
  }

  lemma {:induction false} TrimEndSplits(s: string) returns (pad: string)
    ensures s == TrimEnd(s) + pad && AllSpace(pad)
  {
    pad := "";
    if s != [] && IsSpace(s[|s| - 1]) {
      var n := |s| - 1;
      var more := TrimEndSplits(s[..n]);
      pad := more + s[n..];
      assert s == s[..n] + s[n..];
      Associate(TrimEnd(s[..n]), more, s[n..]);
    } else {
      assert s == s + "";
    }
  }

  lemma ParsedIsSigned(s: string)
    requires ParseI64(s).Some?
    ensures exists sign, digits ::
      IsSign(sign) && digits != [] && Decimal.AllDigits(digits) && s == sign + digits
  {
    if s[0] == '-' || s[0] == '+' {
      assert IsSign(s[..1]) && s == s[..1] + s[1..];
    } else {
      assert IsSign("") && s == "" + s;
    }
  }

  lemma ReadableIsWritten(raw: string)
    requires ParseI64(Trim(raw)).Some?
    ensures Writes(raw, StatusCode(raw))
  {
    hide ParseI64;
    hide StatusCode;
    var before := TrimStartSplits(raw);
    var after := TrimEndSplits(TrimStart(raw));
    ParsedIsSigned(Trim(raw));
    var sign, digits :| IsSign(sign) && digits != [] && Decimal.AllDigits(digits) && Trim(raw) == sign + digits;
    Associate(before, sign + digits, after);
    StatusCodeMeans(before, sign, digits, after);
  }

  /** For every header value: it has the code that its digits spell, leading zeros, sign and
      white space around them allowed, and -1 exactly when they spell that or it is not of
      that form. */
  lemma StatusCodeIff(raw: string, code: int)
    ensures StatusCode(raw) == code <==> Writes(raw, code) || (code == -1 && forall c :: !Writes(raw, c))
  {
    hide ParseI64;
    if ParseI64(Trim(raw)).Some? {
      ReadableIsWritten(raw);
    }
    forall c | Writes(raw, c) ensures c == StatusCode(raw) {
      var before, sign, digits, after :|
        && AllSpace(before) && AllSpace(after) && IsSign(sign) && digits != [] && Decimal.AllDigits(digits)
        && raw == before + (sign + digits) + after && c == Spelled(sign, digits);
      StatusCodeMeans(before, sign, digits, after);
    }
  }

  /** A code written in decimal, with any white space around it, is read back exactly. */
  lemma StatusCodeRoundTrip(before: string, n: int, after: string)
    requires AllSpace(before) && AllSpace(after) && -TWO_63 <= n < TWO_63
    ensures StatusCode(before + Decimal.IntText(n) + after) == n
  {
    hide StatusCode;
    var m: nat := if n < 0 then -n else n;
    var sign := if n < 0 then "-" else "";
    assert sign + Decimal.Text(m) == Decimal.IntText(n);
    Decimal.ValueOfText(m);
    StatusCodeMeans(before, sign, Decimal.Text(m), after);
  }

  /** The number format prints the code in full, also for the codes without a name. */
  lemma NumberKeepsTheCode(raw: string, format: GrpcFormat)
    requires format.Number? || !(0 <= StatusCode(raw) < |NAMES|)
    ensures StatusCode(RenderStatus(raw, format)) == StatusCode(raw)
  {
    var code := StatusCode(raw);
    StatusCodeRoundTrip("", code, "");
    assert "" + Decimal.IntText(code) + "" == Decimal.IntText(code);
  }

  /** The names of the codes; a code without a name, and every code in the number format,
      prints as the number. */
  lemma CodeNames(raw: string)
    ensures StatusCode(raw) == 0 ==> RenderStatus(raw, CamelString) == "OK" && RenderStatus(raw, SnakeString) == "OK"
    ensures StatusCode(raw) == 1 ==> RenderStatus(raw, CamelString) == "Canceled" && RenderStatus(raw, SnakeString) == "CANCELLED"
    ensures StatusCode(raw) == 2 ==> RenderStatus(raw, CamelString) == "Unknown" && RenderStatus(raw, SnakeString) == "UNKNOWN"
    ensures StatusCode(raw) == 3 ==> RenderStatus(raw, CamelString) == "InvalidArgument" && RenderStatus(raw, SnakeString) == "INVALID_ARGUMENT"
    ensures StatusCode(raw) == 4 ==> RenderStatus(raw, CamelString) == "DeadlineExceeded" && RenderStatus(raw, SnakeString) == "DEADLINE_EXCEEDED"
    ensures StatusCode(raw) == 5 ==> RenderStatus(raw, CamelString) == "NotFound" && RenderStatus(raw, SnakeString) == "NOT_FOUND"
    ensures StatusCode(raw) == 6 ==> RenderStatus(raw, CamelString) == "AlreadyExists" && RenderStatus(raw, SnakeString) == "ALREADY_EXISTS"
    ensures StatusCode(raw) == 7 ==> RenderStatus(raw, CamelString) == "PermissionDenied" && RenderStatus(raw, SnakeString) == "PERMISSION_DENIED"
    ensures StatusCode(raw) == 8 ==> RenderStatus(raw, CamelString) == "ResourceExhausted" && RenderStatus(raw, SnakeString) == "RESOURCE_EXHAUSTED"
    ensures StatusCode(raw) == 9 ==> RenderStatus(raw, CamelString) == "FailedPrecondition" && RenderStatus(raw, SnakeString) == "FAILED_PRECONDITION"
    ensures StatusCode(raw) == 10 ==> RenderStatus(raw, CamelString) == "Aborted" && RenderStatus(raw, SnakeString) == "ABORTED"
    ensures StatusCode(raw) == 11 ==> RenderStatus(raw, CamelString) == "OutOfRange" && RenderStatus(raw, SnakeString) == "OUT_OF_RANGE"
    ensures StatusCode(raw) == 12 ==> RenderStatus(raw, CamelString) == "Unimplemented" && RenderStatus(raw, SnakeString) == "UNIMPLEMENTED"
    ensures StatusCode(raw) == 13 ==> RenderStatus(raw, CamelString) == "Internal" && RenderStatus(raw, SnakeString) == "INTERNAL"
    ensures StatusCode(raw) == 14 ==> RenderStatus(raw, CamelString) == "Unavailable" && RenderStatus(raw, SnakeString) == "UNAVAILABLE"
    ensures StatusCode(raw) == 15 ==> RenderStatus(raw, CamelString) == "DataLoss" && RenderStatus(raw, SnakeString) == "DATA_LOSS"
    ensures StatusCode(raw) == 16 ==> RenderStatus(raw, CamelString) == "Unauthenticated" && RenderStatus(raw, SnakeString) == "UNAUTHENTICATED"
    ensures StatusCode(raw) < 0 || StatusCode(raw) > 16 ==>
      RenderStatus(raw, CamelString) == RenderStatus(raw, SnakeString) == Decimal.IntText(StatusCode(raw))
    ensures RenderStatus(raw, Number) == Decimal.IntText(StatusCode(raw))
  {
    hide StatusCode;
    hide Decimal.IntText;
  }

  /** The code points that count as white space around a status, and the range of the codes. */
  lemma SpacesAndRange(c: char, raw: string, digits: string)
    requires Decimal.AllDigits(digits)
    ensures IsSpace(c) <==>
      var n := c as int;
      || 9 <= n <= 13 || n == 32 || n == 133 || n == 160 || n == 5760 || 8192 <= n <= 8202
      || n == 8232 || n == 8233 || n == 8239 || n == 8287 || n == 12288
    ensures -9_223_372_036_854_775_808 <= StatusCode(raw) <= 9_223_372_036_854_775_807
    ensures var n: int := Decimal.Value(digits);
      && Spelled("", digits) == Spelled("+", digits) == (if n <= 9_223_372_036_854_775_807 then n else -1)
      && Spelled("-", digits) == (if n <= 9_223_372_036_854_775_808 then -n else -1)
  {
  }
}
