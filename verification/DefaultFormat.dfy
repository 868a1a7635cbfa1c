/** The default access-log format: the format string that the engine compiles, and the
    hand-written concatenation that it replaced. */
module DefaultFormat {
  import opened Common
  import opened CommandOperator
  import opened Rendering
  import Calendar
  import Decimal
  import FormatString

  function Sub(body: string): string { "%" + body + "%" }

  function ReqOf(arg: string): string { Sub("REQ" + ("(" + arg + ")")) }

  function RespOf(arg: string): string { Sub("RESP" + ("(" + arg + ")")) }

  /** The parts one after the other. */
  function Concat(parts: seq<string>): string {
    if parts == [] then "" else parts[0] + Concat(parts[1..])
  }

  const FORMAT: seq<string> := [
    "[", Sub("START_TIME"),
    "] \"", ReqOf(":METHOD"), " ", ReqOf("X-ENVOY-ORIGINAL-PATH" + "?" + ":PATH"), " ", Sub("PROTOCOL"),
    "\" ", Sub("RESPONSE_CODE"), " ", Sub("RESPONSE_FLAGS"),
    " ", Sub("BYTES_RECEIVED"), " ", Sub("BYTES_SENT"), " ", Sub("DURATION"),
    " ", RespOf("X-ENVOY-UPSTREAM-SERVICE-TIME"),
    " \"", ReqOf("X-FORWARDED-FOR"), "\" \"", ReqOf("USER-AGENT"), "\" \"", ReqOf("X-REQUEST-ID"),
    "\" \"", ReqOf(":AUTHORITY"), "\" \"", Sub("UPSTREAM_HOST"), "\"\n"]

  const DEFAULT_FORMAT: string := Concat(FORMAT)

  // ---------------------------------------------------------------------------
  // The concatenation
  // ---------------------------------------------------------------------------

  function OrDash(v: Option<string>): string {
    if v.Some? then v.value else "-"
  }

  function ServiceTime(r: Record): Option<string> {
    if r.upstreamServiceTime.Some? then Some(Decimal.Text(AsMillis(r.upstreamServiceTime.value))) else None
  }

  /** What the hand-written formatter pushes, in order, and the newline behind it. */
  ghost function LegacyParts(r: Record): seq<string> {
    [ "[", Calendar.Timestamp(r.startTime),
      "] \"", r.httpMethod, " ", r.path, " ", r.protocol,
      "\" ", Decimal.Text(r.responseCode), " ", r.responseFlags,
      " ", Decimal.Text(r.bytesReceived), " ", Decimal.Text(r.bytesSent), " ", Decimal.Text(AsMillis(r.duration)),
      " ", OrDash(ServiceTime(r)),
      " \"", OrDash(r.forwardedFor), "\" \"", OrDash(r.userAgent), "\" \"", OrDash(r.requestId),
      "\" \"", OrDash(r.authority), "\" \"", OrDash(r.upstreamHost), "\"\n"]
  }

  // ---------------------------------------------------------------------------
  // Rendering piece by piece
  // ---------------------------------------------------------------------------

  ghost predicate Renders(s: string, r: Record, text: string) {
    FormatString.Parse(s).Ok? && Render(FormatString.Parse(s).value, r, false) == text
  }

  /** Parts that render one by one render together. */
  lemma {:induction false} Chain(parts: seq<string>, texts: seq<string>, r: Record)
    requires |parts| == |texts| && forall i | 0 <= i < |parts| :: Renders(parts[i], r, texts[i])
    ensures Renders(Concat(parts), r, Concat(texts))
  {
    if parts != [] {
      assert Renders(parts[0], r, texts[0]);
      Chain(parts[1..], texts[1..], r);
      RenderConcat(parts[0], Concat(parts[1..]), r, false);
    }
  }

  lemma Plain(l: string, r: Record)
    requires '%' !in l
    ensures Renders(l, r, l)
  {
    FormatString.ParseRun(l, "");
    assert l + "" == l;
    RenderPrepend(l, [], r, false);
  }

  lemma Substituted(body: string, op: Op, r: Record)
    requires ParseOperator(body) == Ok(op) && '%' !in body && body != []
    ensures Renders(Sub(body), r, OpText(op, r, false))
  {
    FormatString.WrappedOperator(op, body);
    var segs := [FormatString.Operator(op)];
    assert segs[1..] == [] && OpText(op, r, false) + "" == OpText(op, r, false);
  }

  // ---------------------------------------------------------------------------
  // The operators of the default format
  // ---------------------------------------------------------------------------

  lemma Bare(op: Op)
    requires Argument(op).None?
    ensures ParseOperator(Keyword(op)) == Ok(op) && '%' !in Keyword(op) && Keyword(op) != []
  {
    OperatorRoundTrip(op);
    assert Keyword(op) + "" == Keyword(op);
  }

  /** A header argument in any case parses to its lower-case name. */
  lemma HeaderAnyCase(keyword: string, side: Side, arg: string, name: string, alt: Option<string>)
    requires ')' !in arg && '%' !in arg
    requires ParseNames(keyword, arg) == Ok((name, alt)) && Backed(side, name, alt)
    ensures ParseHeader(keyword, Some("(" + arg + ")"), side) == Ok(HeaderOp(side, name, alt, None))
  {
    SplitArgument(arg, "");
    assert "(" + arg + ")" + "" == "(" + arg + ")";
  }

  lemma ReqAnyCase(arg: string, name: string, alt: Option<string>)
    requires ')' !in arg && '%' !in arg
    requires ParseNames("REQ", arg) == Ok((name, alt)) && Backed(ReqSide, name, alt)
    ensures ParseOperator("REQ" + ("(" + arg + ")")) == Ok(Req(name, alt, None))
    ensures '%' !in "REQ" + ("(" + arg + ")")
  {
    hide ParseHeader;
    hide ParseNames;
    HeaderAnyCase("REQ", ReqSide, arg, name, alt);
    SplitBody("REQ", Some("(" + arg + ")"));
    DispatchReq("(" + arg + ")");
  }

  lemma RespAnyCase(arg: string, name: string, alt: Option<string>)
    requires ')' !in arg && '%' !in arg
    requires ParseNames("RESP", arg) == Ok((name, alt)) && Backed(RespSide, name, alt)
    ensures ParseOperator("RESP" + ("(" + arg + ")")) == Ok(Resp(name, alt, None))
    ensures '%' !in "RESP" + ("(" + arg + ")")
  {
    hide ParseHeader;
    hide ParseNames;
    HeaderAnyCase("RESP", RespSide, arg, name, alt);
    SplitBody("RESP", Some("(" + arg + ")"));
    DispatchResp("(" + arg + ")");
  }

  /** A header argument without an alternate, and its lower-case name. */
  predicate Names(arg: string, name: string) {
    ')' !in arg && '%' !in arg && '?' !in arg && Lower(arg) == name
  }

  lemma BarePiece(op: Op, r: Record)
    requires Argument(op).None?
    ensures Renders(Sub(Keyword(op)), r, OpText(op, r, false))
  {
    hide Renders;
    hide ParseOperator;
    Bare(op);
    Substituted(Keyword(op), op, r);
  }

  /** A plain request header, in any case. */
  lemma ReqPiece(arg: string, name: string, r: Record)
    requires Names(arg, name) && name in REQ_ALLOW_LIST
    ensures Renders(ReqOf(arg), r, OrDash(ResolveReq(name, r)))
  {
    hide Renders;
    hide ParseOperator;
    ReqAnyCase(arg, name, None);
    Substituted("REQ" + ("(" + arg + ")"), Req(name, None, None), r);
  }

  lemma RespPiece(arg: string, name: string, r: Record)
    requires Names(arg, name) && name in RESP_ALLOW_LIST
    ensures Renders(RespOf(arg), r, OrDash(ResolveResp(name, r)))
  {
    hide Renders;
    hide ParseOperator;
    RespAnyCase(arg, name, None);
    Substituted("RESP" + ("(" + arg + ")"), Resp(name, None, None), r);
  }

  lemma AltPiece(first: string, second: string, name: string, alt: string, r: Record)
    requires Names(first, name) && Names(second, alt) && second != [] && name in REQ_ALLOW_LIST
    requires ResolveReq(name, r).Some?
    ensures Renders(ReqOf(first + "?" + second), r, ResolveReq(name, r).value)
  {
    hide Renders;
    hide ParseOperator;
    var arg := first + "?" + second;
    IndexOfSplit(first, '?', second);
    assert arg[..|first|] == first && arg[|first| + 1..] == second;
    ReqAnyCase(arg, name, Some(alt));
    Substituted("REQ" + ("(" + arg + ")"), Req(name, Some(alt), None), r);
  }

  lemma JoinNames(a: string, x: string, b: string, y: string)
    requires Names(a, x) && Names(b, y)
    ensures Names(a + b, x + y)
  {
  }

  lemma MethodName()
    ensures Names(":METHOD", ":method")
  {
  }

  lemma EnvoyPrefix()
    ensures Names("X-ENVOY-", "x-envoy-")
  {
  }

  lemma OriginalPathEnd()
    ensures Names("ORIGINAL-PATH", "original-path")
  {
  }

  lemma OriginalPathJoined()
    ensures "X-ENVOY-" + "ORIGINAL-PATH" == "X-ENVOY-ORIGINAL-PATH"
    ensures "x-envoy-" + "original-path" == "x-envoy-original-path"
  {
  }

  lemma OriginalPathName()
    ensures Names("X-ENVOY-ORIGINAL-PATH", "x-envoy-original-path")
  {
    hide Names;
    EnvoyPrefix();
    OriginalPathEnd();
    OriginalPathJoined();
    JoinNames("X-ENVOY-", "x-envoy-", "ORIGINAL-PATH", "original-path");
  }

  lemma PathName()
    ensures Names(":PATH", ":path")
  {
  }

  lemma ForwardedForName()
    ensures Names("X-FORWARDED-FOR", "x-forwarded-for")
  {
  }

  lemma UserAgentName()
    ensures Names("USER-AGENT", "user-agent")
  {
  }

  lemma RequestIdName()
    ensures Names("X-REQUEST-ID", "x-request-id")
  {
  }

  lemma AuthorityName()
    ensures Names(":AUTHORITY", ":authority")
  {
  }

  lemma ServiceTimeStart()
    ensures Names("UPSTREAM-", "upstream-")
  {
  }

  lemma ServiceTimeEnd()
    ensures Names("SERVICE-TIME", "service-time")
  {
  }

  lemma ServiceTimeUpper()
    ensures "UPSTREAM-" + "SERVICE-TIME" == "UPSTREAM-SERVICE-TIME"
    ensures "X-ENVOY-" + "UPSTREAM-SERVICE-TIME" == "X-ENVOY-UPSTREAM-SERVICE-TIME"
  {
  }

  lemma ServiceTimeLower()
    ensures "upstream-" + "service-time" == "upstream-service-time"
    ensures "x-envoy-" + "upstream-service-time" == "x-envoy-upstream-service-time"
  {
  }

  lemma ServiceTimeName()
    ensures Names("X-ENVOY-UPSTREAM-SERVICE-TIME", "x-envoy-upstream-service-time")
  {
    hide Names;
    EnvoyPrefix();
    ServiceTimeStart();
    ServiceTimeEnd();
    ServiceTimeUpper();
    ServiceTimeLower();
    JoinNames("UPSTREAM-", "upstream-", "SERVICE-TIME", "service-time");
    JoinNames("X-ENVOY-", "x-envoy-", "UPSTREAM-SERVICE-TIME", "upstream-service-time");
  }

  // ---------------------------------------------------------------------------
  // The whole line
  // ---------------------------------------------------------------------------

  lemma PathPiece(r: Record)
    ensures Renders(ReqOf("X-ENVOY-ORIGINAL-PATH" + "?" + ":PATH"), r, r.path)
  {
    hide Renders;
    hide Names;
    OriginalPathName();
    PathName();
    AltPiece("X-ENVOY-ORIGINAL-PATH", ":PATH", "x-envoy-original-path", ":path", r);
  }

  /** The header operators of the line. */
  lemma HeaderPieces(r: Record)
    ensures Renders(ReqOf(":METHOD"), r, r.httpMethod)
    ensures Renders(ReqOf("X-FORWARDED-FOR"), r, OrDash(r.forwardedFor))
    ensures Renders(ReqOf("USER-AGENT"), r, OrDash(r.userAgent))
    ensures Renders(ReqOf("X-REQUEST-ID"), r, OrDash(r.requestId))
    ensures Renders(ReqOf(":AUTHORITY"), r, OrDash(r.authority))
    ensures Renders(RespOf("X-ENVOY-UPSTREAM-SERVICE-TIME"), r, OrDash(ServiceTime(r)))
  {
    hide Renders;
    hide Names;
    MethodName();
    ReqPiece(":METHOD", ":method", r);
    ForwardedForName();
    ReqPiece("X-FORWARDED-FOR", "x-forwarded-for", r);
    UserAgentName();
    ReqPiece("USER-AGENT", "user-agent", r);
    RequestIdName();
    ReqPiece("X-REQUEST-ID", "x-request-id", r);
    AuthorityName();
    ReqPiece(":AUTHORITY", ":authority", r);
    ServiceTimeName();
    RespPiece("X-ENVOY-UPSTREAM-SERVICE-TIME", "x-envoy-upstream-service-time", r);
  }

  /** The default format string parses, and for every record the engine renders it to the
      line of the hand-written concatenation and its newline. */
  lemma DefaultEqualsLegacy(r: Record)
    ensures FormatString.Parse(DEFAULT_FORMAT).Ok?
    ensures Render(FormatString.Parse(DEFAULT_FORMAT).value, r, false) == Concat(LegacyParts(r))
  {
    LineRenders(r);
  }

  lemma RequestPieces(r: Record)
    ensures Renders(Sub("START_TIME"), r, Calendar.Timestamp(r.startTime))
    ensures Renders(Sub("PROTOCOL"), r, r.protocol)
    ensures Renders(Sub("DURATION"), r, Decimal.Text(AsMillis(r.duration)))
    ensures Renders(Sub("UPSTREAM_HOST"), r, OrDash(r.upstreamHost))
  {
    hide Calendar.Timestamp;
    hide Decimal.Text;
    hide Renders;
    hide Sub;
    BarePiece(StartTime, r);
    BarePiece(Protocol, r);
    BarePiece(Duration, r);
    BarePiece(UpstreamHost, r);
  }

  lemma ResponsePieces(r: Record)
    ensures Renders(Sub("RESPONSE_CODE"), r, Decimal.Text(r.responseCode))
    ensures Renders(Sub("RESPONSE_FLAGS"), r, r.responseFlags)
    ensures Renders(Sub("BYTES_RECEIVED"), r, Decimal.Text(r.bytesReceived))
    ensures Renders(Sub("BYTES_SENT"), r, Decimal.Text(r.bytesSent))
  {
    hide Renders;
    hide Sub;
    BarePiece(ResponseCode, r);
    BarePiece(ResponseFlags, r);
    BarePiece(BytesReceived, r);
    BarePiece(BytesSent, r);
  }

  lemma Separators(r: Record)
    ensures Renders("[", r, "[") && Renders("] \"", r, "] \"") && Renders(" ", r, " ") && Renders("\" ", r, "\" ")
    ensures Renders(" \"", r, " \"") && Renders("\" \"", r, "\" \"") && Renders("\"\n", r, "\"\n")
  {
    hide Renders;
    Plain("[", r);
    Plain("] \"", r);
    Plain(" ", r);
    Plain("\" ", r);
    Plain(" \"", r);
    Plain("\" \"", r);
    Plain("\"\n", r);
  }

  lemma LineRenders(r: Record)
    ensures Renders(DEFAULT_FORMAT, r, Concat(LegacyParts(r)))
  {
    hide Renders;
    hide Sub;
    hide ReqOf;
    hide RespOf;
    hide Concat;
    hide OrDash;
    hide ServiceTime;
    HeaderPieces(r);
    PathPiece(r);
    RequestPieces(r);
    ResponsePieces(r);
    Separators(r);
    Chain(FORMAT, LegacyParts(r), r);
  }
}
