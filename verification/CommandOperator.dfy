/** The access-log format language: operator bodies and their printed form. */
module CommandOperator {
  import opened Common
  import Decimal

  datatype GrpcFormat = CamelString | SnakeString | Number

  datatype Op =
    | StartTime
    | Req(name: string, alt: Option<string>, truncate: Option<nat>)
    | Resp(name: string, alt: Option<string>, truncate: Option<nat>)
    | Protocol
    | ResponseCode
    | ResponseFlags
    | BytesReceived
    | BytesSent
    | Duration
    | UpstreamHost
    | UpstreamCluster
    | RouteName
    | ResponseCodeDetails
    | DynamicMetadata(namespace: string, key: string)
    | GrpcStatus(format: GrpcFormat)

  datatype Side = ReqSide | RespSide

  /** Why an argument is malformed. */
  datatype Reason =
    | MissingArgument
    | MissingParen
    | TrailingText(text: string)
    | EmptyAlternate
    | TakesNoArgument
    | NoLengthAllowed
    | NotNamespaceKey
    | UnknownGrpcFormat(text: string)

  datatype ParseError =
    | UnterminatedOperator
    | EmptyOperator
    | UnknownKeyword(keyword: string)
    | MalformedArgument(keyword: string, reason: Reason)
    | UnsupportedHeader(side: Side, name: string)
    | BadTruncate(text: string)

  const REQ_ALLOW_LIST: seq<string> := [
    ":method", ":authority", ":path", "x-envoy-original-path", "x-forwarded-for", "user-agent", "x-request-id"]

  const RESP_ALLOW_LIST: seq<string> := ["x-envoy-upstream-service-time"]

  function AllowList(side: Side): seq<string> {
    if side.ReqSide? then REQ_ALLOW_LIST else RESP_ALLOW_LIST
  }

  // ---------------------------------------------------------------------------
  // Text
  // ---------------------------------------------------------------------------

  /** Position of the first `c`. */
  function IndexOf(s: string, c: char): (r: Option<nat>)
    ensures r.None? <==> c !in s
    ensures r.Some? ==> r.value < |s| && s[r.value] == c && c !in s[..r.value]
  {
    if s == [] then None
    else if s[0] == c then Some(0)
    else
      var r := IndexOf(s[1..], c);
      if r.None? then None
      else
        assert s[..r.value + 1] == [s[0]] + s[1..][..r.value];
        Some(r.value + 1)
  }

  lemma IndexOfSplit(a: string, c: char, b: string)
    requires c !in a
    ensures IndexOf(a + [c] + b, c) == Some(|a|)
  {
    var s := a + [c] + b;
    assert s[|a|] == c;
    var r := IndexOf(s, c).value;
    assert forall i | 0 <= i < |a| :: s[i] == a[i];
    assert forall k | |a| < k <= |s| :: s[..k][|a|] == c;
  }

  function LowerChar(c: char): char {
    if 'A' <= c <= 'Z' then c - 'A' + 'a' else c
  }

  function Lower(s: string): (r: string)
    ensures |r| == |s| && forall i | 0 <= i < |s| :: r[i] == LowerChar(s[i])
  {
    seq(|s|, i requires 0 <= i < |s| => LowerChar(s[i]))
  }

  predicate IsLower(s: string) {
    forall i | 0 <= i < |s| :: !('A' <= s[i] <= 'Z')
  }

  lemma LowerFixed(s: string)
    ensures IsLower(Lower(s))
    ensures IsLower(s) ==> Lower(s) == s
  {
  }

  /** Characters outside the letters survive lower-casing and are not created by it. */
  lemma LowerKeeps(s: string, c: char)
    requires !('A' <= c <= 'Z') && !('a' <= c <= 'z') && c !in s
    ensures c !in Lower(s)
  {
    forall i | 0 <= i < |s| ensures Lower(s)[i] != c {
      assert s[i] in s;
    }
  }

  // ---------------------------------------------------------------------------
  // Parsing an operator body
  // ---------------------------------------------------------------------------

  function NoArgOp(keyword: string): Option<Op> {
    if keyword == "PROTOCOL" then Some(Protocol)
    else if keyword == "RESPONSE_CODE" then Some(ResponseCode)
    else if keyword == "RESPONSE_FLAGS" then Some(ResponseFlags)
    else if keyword == "BYTES_RECEIVED" then Some(BytesReceived)
    else if keyword == "BYTES_SENT" then Some(BytesSent)
    else if keyword == "UPSTREAM_HOST" then Some(UpstreamHost)
    else if keyword == "UPSTREAM_CLUSTER" then Some(UpstreamCluster)
    else if keyword == "ROUTE_NAME" then Some(RouteName)
    else if keyword == "RESPONSE_CODE_DETAILS" then Some(ResponseCodeDetails)
    else if keyword == "START_TIME" then Some(StartTime)
    else if keyword == "DURATION" then Some(Duration)
    else if keyword == "GRPC_STATUS_NUMBER" then Some(GrpcStatus(Number))
    else None
  }

  /** The `:N` after a header argument. */
  function ParseTruncate(keyword: string, after: string): Result<Option<nat>, ParseError> {
    if after == [] then Ok(None)
    else if after[0] != ':' then Err(MalformedArgument(keyword, TrailingText(after)))
    else
      var num := after[1..];
      if num == [] || !Decimal.AllDigits(num) || Decimal.Value(num) >= TWO_64 then Err(BadTruncate(num))
      else Ok(Some(Decimal.Value(num)))
  }

  /** The header name and its alternate, lower-cased. */
  function ParseNames(keyword: string, arg: string): Result<(string, Option<string>), ParseError> {
    match IndexOf(arg, '?')
    case None => Ok((Lower(arg), None))
    case Some(p) =>
      if arg[p + 1..] == [] then Err(MalformedArgument(keyword, EmptyAlternate))
      else Ok((Lower(arg[..p]), Some(Lower(arg[p + 1..]))))
  }

  predicate Backed(side: Side, name: string, alt: Option<string>) {
    name in AllowList(side) || (alt.Some? && alt.value in AllowList(side))
  }

  function HeaderOp(side: Side, name: string, alt: Option<string>, truncate: Option<nat>): Op {
    if side.ReqSide? then Req(name, alt, truncate) else Resp(name, alt, truncate)
  }

  /** `rest` is the body from its opening parenthesis on, if it has one. */
  function ParseHeader(keyword: string, rest: Option<string>, side: Side): Result<Op, ParseError>
    requires rest.Some? ==> rest.value != [] && rest.value[0] == '('
  {
    if rest.None? then Err(MalformedArgument(keyword, MissingArgument))
    else
      match IndexOf(rest.value, ')')
      case None => Err(MalformedArgument(keyword, MissingParen))
      case Some(close) =>
        match ParseTruncate(keyword, rest.value[close + 1..])
        case Err(e) => Err(e)
        case Ok(truncate) =>
          match ParseNames(keyword, rest.value[1..close])
          case Err(e) => Err(e)
          case Ok((name, alt)) =>
            if Backed(side, name, alt) then Ok(HeaderOp(side, name, alt, truncate))
            else Err(UnsupportedHeader(side, name))
  }

  function ParseDynamicMetadata(keyword: string, rest: Option<string>): Result<Op, ParseError>
    requires rest.Some? ==> rest.value != [] && rest.value[0] == '('
  {
    if rest.None? then Err(MalformedArgument(keyword, MissingArgument))
    else
      match IndexOf(rest.value, ')')
      case None => Err(MalformedArgument(keyword, MissingParen))
      case Some(close) =>
        var arg := rest.value[1..close];
        if rest.value[close + 1..] != [] then Err(MalformedArgument(keyword, NoLengthAllowed))
        else
          match IndexOf(arg, ':')
          case None => Err(MalformedArgument(keyword, NotNamespaceKey))
          case Some(p) =>
            if p > 0 && arg[p + 1..] != [] && ':' !in arg[p + 1..]
            then Ok(DynamicMetadata(arg[..p], arg[p + 1..]))
            else Err(MalformedArgument(keyword, NotNamespaceKey))
  }

  function ParseGrpcStatus(keyword: string, rest: Option<string>): Result<Op, ParseError>
    requires rest.Some? ==> rest.value != [] && rest.value[0] == '('
  {
    if rest.None? then Ok(GrpcStatus(CamelString))
    else
      match IndexOf(rest.value, ')')
      case None => Err(MalformedArgument(keyword, MissingParen))
      case Some(close) =>
        var arg := rest.value[1..close];
        if rest.value[close + 1..] != [] then Err(MalformedArgument(keyword, NoLengthAllowed))
        else if arg == "" || arg == "CAMEL_STRING" then Ok(GrpcStatus(CamelString))
        else if arg == "SNAKE_STRING" then Ok(GrpcStatus(SnakeString))
        else if arg == "NUMBER" then Ok(GrpcStatus(Number))
        else Err(MalformedArgument(keyword, UnknownGrpcFormat(arg)))
  }

  /** Dispatch on the keyword once the body has been split at its first parenthesis. */
  function ParseSplit(keyword: string, rest: Option<string>): Result<Op, ParseError>
    requires rest.Some? ==> rest.value != [] && rest.value[0] == '('
  {
    if keyword == [] then Err(EmptyOperator)
    else if keyword == "REQ" then ParseHeader(keyword, rest, ReqSide)
    else if keyword == "RESP" then ParseHeader(keyword, rest, RespSide)
    else if keyword == "DYNAMIC_METADATA" then ParseDynamicMetadata(keyword, rest)
    else if keyword == "GRPC_STATUS" then ParseGrpcStatus(keyword, rest)
    else
      match NoArgOp(keyword)
      case None => Err(UnknownKeyword(keyword))
      case Some(op) =>
        if rest.Some? && rest.value != "()" then Err(MalformedArgument(keyword, TakesNoArgument)) else Ok(op)
  }

  /** Parse the text strictly between two percent signs. */
  function ParseOperator(body: string): Result<Op, ParseError> {
    match IndexOf(body, '(')
    case None => ParseSplit(body, None)
    case Some(p) => ParseSplit(body[..p], Some(body[p..]))
  }

  // ---------------------------------------------------------------------------
  // Canonical operators and their printed form
  // ---------------------------------------------------------------------------

  predicate CanonicalHeader(side: Side, name: string, alt: Option<string>, truncate: Option<nat>) {
    && IsLower(name) && ')' !in name && '%' !in name && '?' !in name
    && (alt.Some? ==> alt.value != [] && IsLower(alt.value) && ')' !in alt.value && '%' !in alt.value)
    && Backed(side, name, alt)
    && (truncate.Some? ==> truncate.value < TWO_64)
  }

  /** The operators the parser can produce. */
  predicate Canonical(op: Op) {
    match op
    case Req(name, alt, truncate) => CanonicalHeader(ReqSide, name, alt, truncate)
    case Resp(name, alt, truncate) => CanonicalHeader(RespSide, name, alt, truncate)
    case DynamicMetadata(ns, key) =>
      && ns != [] && ':' !in ns && ')' !in ns && '%' !in ns
      && key != [] && ':' !in key && ')' !in key && '%' !in key
    case _ => true
  }

  function GrpcName(f: GrpcFormat): string {
    match f
    case CamelString => "CAMEL_STRING"
    case SnakeString => "SNAKE_STRING"
    case Number => "NUMBER"
  }

  function Keyword(op: Op): string {
    match op
    case StartTime => "START_TIME"
    case Req(_, _, _) => "REQ"
    case Resp(_, _, _) => "RESP"
    case Protocol => "PROTOCOL"
    case ResponseCode => "RESPONSE_CODE"
    case ResponseFlags => "RESPONSE_FLAGS"
    case BytesReceived => "BYTES_RECEIVED"
    case BytesSent => "BYTES_SENT"
    case Duration => "DURATION"
    case UpstreamHost => "UPSTREAM_HOST"
    case UpstreamCluster => "UPSTREAM_CLUSTER"
    case RouteName => "ROUTE_NAME"
    case ResponseCodeDetails => "RESPONSE_CODE_DETAILS"
    case DynamicMetadata(_, _) => "DYNAMIC_METADATA"
    case GrpcStatus(_) => "GRPC_STATUS"
  }

  function PrintArgument(name: string, alt: Option<string>, truncate: Option<nat>): string {
    var arg := name + if alt.Some? then "?" + alt.value else "";
    "(" + arg + ")" + if truncate.Some? then ":" + Decimal.Text(truncate.value) else ""
  }

  function Argument(op: Op): (r: Option<string>)
    ensures r.Some? ==> r.value != [] && r.value[0] == '('
  {
    match op
    case Req(name, alt, truncate) => Some(PrintArgument(name, alt, truncate))
    case Resp(name, alt, truncate) => Some(PrintArgument(name, alt, truncate))
    case DynamicMetadata(ns, key) => Some("(" + (ns + ":" + key) + ")")
    case GrpcStatus(f) => Some("(" + GrpcName(f) + ")")
    case _ => None
  }

  function PrintBody(op: Op): string {
    Keyword(op) + if Argument(op).Some? then Argument(op).value else ""
  }

  /** A body printed as keyword and argument is split back where it was joined. */
  lemma SplitBody(keyword: string, rest: Option<string>)
    requires '(' !in keyword && (rest.Some? ==> rest.value != [] && rest.value[0] == '(')
    ensures ParseOperator(keyword + if rest.Some? then rest.value else "") == ParseSplit(keyword, rest)
  {
    if rest.Some? {
      var body := keyword + rest.value;
      assert body == keyword + ['('] + rest.value[1..];
      IndexOfSplit(keyword, '(', rest.value[1..]);
      assert body[..|keyword|] == keyword && body[|keyword|..] == rest.value;
    } else {
      assert keyword + "" == keyword;
    }
  }

  lemma SplitArgument(arg: string, after: string)
    requires ')' !in arg
    ensures var rest := "(" + arg + ")" + after;
      IndexOf(rest, ')') == Some(|arg| + 1) && rest[1..|arg| + 1] == arg && rest[|arg| + 2..] == after
  {
    IndexOfSplit("(" + arg, ')', after);
  }

  lemma AlternateRoundTrip(keyword: string, name: string, alt: string)
    requires IsLower(name) && '?' !in name && alt != [] && IsLower(alt)
    ensures ParseNames(keyword, name + ("?" + alt)) == Ok((name, Some(alt)))
  {
    hide Lower;
    hide IsLower;
    LowerFixed(name);
    LowerFixed(alt);
    IndexOfSplit(name, '?', alt);
    var arg := name + "?" + alt;
    assert name + ("?" + alt) == arg && arg[..|name|] == name && arg[|name| + 1..] == alt;
  }

  lemma NamesRoundTrip(keyword: string, side: Side, name: string, alt: Option<string>, truncate: Option<nat>)
    requires CanonicalHeader(side, name, alt, truncate)
    ensures ParseNames(keyword, name + if alt.Some? then "?" + alt.value else "") == Ok((name, alt))
    ensures var arg := name + if alt.Some? then "?" + alt.value else ""; ')' !in arg && '%' !in arg
  {
    hide Backed;
    if alt.Some? {
      hide ParseNames;
      AlternateRoundTrip(keyword, name, alt.value);
    } else {
      LowerFixed(name);
      assert name + "" == name;
    }
  }

  lemma TruncateRoundTrip(keyword: string, n: nat)
    requires n < TWO_64
    ensures ParseTruncate(keyword, ":" + Decimal.Text(n)) == Ok(Some(n))
  {
    Decimal.ValueOfText(n);
    assert (":" + Decimal.Text(n))[1..] == Decimal.Text(n);
  }

  lemma HeaderClean(side: Side, name: string, alt: Option<string>, truncate: Option<nat>)
    requires CanonicalHeader(side, name, alt, truncate)
    ensures '%' !in PrintArgument(name, alt, truncate)
  {
    NamesRoundTrip("", side, name, alt, truncate);
  }

  lemma HeaderRoundTrip(keyword: string, side: Side, name: string, alt: Option<string>, truncate: Option<nat>)
    requires CanonicalHeader(side, name, alt, truncate)
    ensures ParseHeader(keyword, Some(PrintArgument(name, alt, truncate)), side) == Ok(HeaderOp(side, name, alt, truncate))
  {
    var arg := name + if alt.Some? then "?" + alt.value else "";
    var after := if truncate.Some? then ":" + Decimal.Text(truncate.value) else "";
    NamesRoundTrip(keyword, side, name, alt, truncate);
    SplitArgument(arg, after);
    if truncate.Some? {
      TruncateRoundTrip(keyword, truncate.value);
    }
  }

  lemma MetadataRoundTrip(keyword: string, ns: string, key: string)
    requires Canonical(DynamicMetadata(ns, key))
    ensures ParseDynamicMetadata(keyword, Some("(" + (ns + ":" + key) + ")")) == Ok(DynamicMetadata(ns, key))
    ensures '%' !in "(" + (ns + ":" + key) + ")"
  {
    var arg := ns + ":" + key;
    assert ')' !in arg && '%' !in arg;
    SplitArgument(arg, "");
    assert "(" + arg + ")" + "" == "(" + arg + ")";
    IndexOfSplit(ns, ':', key);
    assert arg[..|ns|] == ns && arg[|ns| + 1..] == key;
  }

  lemma GrpcNameClean(f: GrpcFormat)
    ensures ')' !in GrpcName(f) && '%' !in GrpcName(f)
  {
  }

  lemma GrpcRoundTrip(keyword: string, f: GrpcFormat)
    ensures ParseGrpcStatus(keyword, Some("(" + GrpcName(f) + ")")) == Ok(GrpcStatus(f))
  {
    GrpcNameClean(f);
    SplitArgument(GrpcName(f), "");
    assert "(" + GrpcName(f) + ")" + "" == "(" + GrpcName(f) + ")";
  }

  // The keywords, one by one.

  lemma DispatchReq(rest: string)
    requires rest != [] && rest[0] == '('
    ensures ParseSplit("REQ", Some(rest)) == ParseHeader("REQ", Some(rest), ReqSide)
  {
  }

  lemma DispatchResp(rest: string)
    requires rest != [] && rest[0] == '('
    ensures ParseSplit("RESP", Some(rest)) == ParseHeader("RESP", Some(rest), RespSide)
  {
  }

  lemma DispatchMetadata(rest: string)
    requires rest != [] && rest[0] == '('
    ensures ParseSplit("DYNAMIC_METADATA", Some(rest)) == ParseDynamicMetadata("DYNAMIC_METADATA", Some(rest))
  {
  }

  lemma DispatchGrpc(rest: string)
    requires rest != [] && rest[0] == '('
    ensures ParseSplit("GRPC_STATUS", Some(rest)) == ParseGrpcStatus("GRPC_STATUS", Some(rest))
  {
  }

  lemma UpstreamKeywordClean(op: Op)
    requires op.StartTime? || op.UpstreamHost? || op.UpstreamCluster? || op.RouteName? || op.Protocol? || op.ResponseFlags?
    ensures '(' !in Keyword(op) && '%' !in Keyword(op) && Keyword(op) != []
  {
  }

  lemma CountKeywordClean(op: Op)
    requires op.ResponseCode? || op.BytesReceived? || op.BytesSent? || op.Duration? || op.ResponseCodeDetails?
    ensures '(' !in Keyword(op) && '%' !in Keyword(op) && Keyword(op) != []
  {
  }

  lemma ArgumentKeywordClean(op: Op)
    requires op.Req? || op.Resp? || op.DynamicMetadata? || op.GrpcStatus?
    ensures '(' !in Keyword(op) && '%' !in Keyword(op) && Keyword(op) != []
  {
  }

  lemma KeywordClean(op: Op)
    ensures '(' !in Keyword(op) && '%' !in Keyword(op) && Keyword(op) != []
  {
    hide Keyword;
    if op.Req? || op.Resp? || op.DynamicMetadata? || op.GrpcStatus? {
      ArgumentKeywordClean(op);
    } else if op.ResponseCode? || op.BytesReceived? || op.BytesSent? || op.Duration? || op.ResponseCodeDetails? {
      CountKeywordClean(op);
    } else {
      UpstreamKeywordClean(op);
    }
  }

  lemma NoArgumentRoundTrip(op: Op)
    requires Argument(op).None?
    ensures NoArgOp(Keyword(op)) == Some(op)
    ensures Keyword(op) != "REQ" && Keyword(op) != "RESP" && Keyword(op) != "DYNAMIC_METADATA" && Keyword(op) != "GRPC_STATUS"
  {
  }

  lemma NoArgumentSplit(op: Op)
    requires Argument(op).None?
    ensures ParseSplit(Keyword(op), None) == Ok(op)
  {
    KeywordClean(op);
    NoArgumentRoundTrip(op);
  }

  lemma ReqSplit(name: string, alt: Option<string>, truncate: Option<nat>)
    requires CanonicalHeader(ReqSide, name, alt, truncate)
    ensures ParseSplit("REQ", Some(PrintArgument(name, alt, truncate))) == Ok(Req(name, alt, truncate))
  {
    HeaderRoundTrip("REQ", ReqSide, name, alt, truncate);
    DispatchReq(PrintArgument(name, alt, truncate));
  }

  lemma RespSplit(name: string, alt: Option<string>, truncate: Option<nat>)
    requires CanonicalHeader(RespSide, name, alt, truncate)
    ensures ParseSplit("RESP", Some(PrintArgument(name, alt, truncate))) == Ok(Resp(name, alt, truncate))
  {
    HeaderRoundTrip("RESP", RespSide, name, alt, truncate);
    DispatchResp(PrintArgument(name, alt, truncate));
  }

  lemma ArgumentClean(op: Op)
    requires Canonical(op) && Argument(op).Some?
    ensures '%' !in Argument(op).value
  {
    match op
    case Req(name, alt, truncate) => HeaderClean(ReqSide, name, alt, truncate);
    case Resp(name, alt, truncate) => HeaderClean(RespSide, name, alt, truncate);
    case DynamicMetadata(ns, key) => MetadataRoundTrip("", ns, key);
    case GrpcStatus(f) => GrpcNameClean(f);
  }

  lemma SplitRoundTrip(op: Op)
    requires Canonical(op)
    ensures ParseSplit(Keyword(op), Argument(op)) == Ok(op)
  {
    if op.Req? {
      ReqSplit(op.name, op.alt, op.truncate);
    } else if op.Resp? {
      RespSplit(op.name, op.alt, op.truncate);
    } else if op.DynamicMetadata? {
      MetadataRoundTrip("DYNAMIC_METADATA", op.namespace, op.key);
      DispatchMetadata(Argument(op).value);
    } else if op.GrpcStatus? {
      GrpcRoundTrip("GRPC_STATUS", op.format);
      DispatchGrpc(Argument(op).value);
    } else {
      NoArgumentSplit(op);
    }
  }

  /** Printing any canonical operator and parsing it gives it back. */
  lemma OperatorRoundTrip(op: Op)
    requires Canonical(op)
    ensures ParseOperator(PrintBody(op)) == Ok(op)
    ensures '%' !in PrintBody(op) && PrintBody(op) != []
  {
    KeywordClean(op);
    SplitBody(Keyword(op), Argument(op));
    SplitRoundTrip(op);
    if Argument(op).Some? {
      ArgumentClean(op);
    }
  }

  lemma LowerOfPart(s: string)
    requires ')' !in s && '%' !in s
    ensures IsLower(Lower(s)) && ')' !in Lower(s) && '%' !in Lower(s)
  {
    LowerFixed(s);
    LowerKeeps(s, ')');
    LowerKeeps(s, '%');
  }

  lemma NamesCanonical(keyword: string, arg: string)
    requires ')' !in arg && '%' !in arg
    ensures var r := ParseNames(keyword, arg);
      r.Ok? ==>
        && IsLower(r.value.0) && ')' !in r.value.0 && '%' !in r.value.0 && '?' !in r.value.0
        && (r.value.1.Some? ==>
              var alt := r.value.1.value; alt != [] && IsLower(alt) && ')' !in alt && '%' !in alt)
  {
    var p := IndexOf(arg, '?');
    if p.None? {
      LowerOfPart(arg);
      LowerKeeps(arg, '?');
    } else {
      LowerOfPart(arg[..p.value]);
      LowerKeeps(arg[..p.value], '?');
      LowerOfPart(arg[p.value + 1..]);
    }
  }

  lemma HeaderCanonical(keyword: string, rest: string, side: Side)
    requires rest != [] && rest[0] == '(' && '%' !in rest
    ensures var r := ParseHeader(keyword, Some(rest), side); r.Ok? ==> Canonical(r.value)
  {
    var close := IndexOf(rest, ')');
    if close.Some? {
      var arg := rest[1..close.value];
      assert arg == rest[..close.value][1..];
      NamesCanonical(keyword, arg);
    }
  }

  lemma MetadataCanonical(keyword: string, rest: string)
    requires rest != [] && rest[0] == '(' && '%' !in rest
    ensures var r := ParseDynamicMetadata(keyword, Some(rest)); r.Ok? ==> Canonical(r.value)
  {
    var close := IndexOf(rest, ')');
    if close.Some? {
      var arg := rest[1..close.value];
      assert arg == rest[..close.value][1..];
      assert ')' !in arg && '%' !in arg;
    }
  }

  lemma NoArgCanonical(keyword: string)
    ensures NoArgOp(keyword).Some? ==> Canonical(NoArgOp(keyword).value)
  {
  }

  lemma SplitCanonical(keyword: string, rest: Option<string>)
    requires rest.Some? ==> rest.value != [] && rest.value[0] == '(' && '%' !in rest.value
    ensures var r := ParseSplit(keyword, rest); r.Ok? ==> Canonical(r.value)
  {
    if rest.Some? {
      if keyword == "REQ" {
        HeaderCanonical(keyword, rest.value, ReqSide);
      } else if keyword == "RESP" {
        HeaderCanonical(keyword, rest.value, RespSide);
      } else {
        MetadataCanonical(keyword, rest.value);
      }
    }
    NoArgCanonical(keyword);
  }

  /** Every operator the parser returns is canonical. */
  lemma ParsedIsCanonical(body: string)
    requires '%' !in body
    ensures var r := ParseOperator(body); r.Ok? ==> Canonical(r.value)
  {
    var p := IndexOf(body, '(');
    if p.None? {
      SplitCanonical(body, None);
    } else {
      SplitCanonical(body[..p.value], Some(body[p.value..]));
    }
  }
}
