/** Rendering a compiled format against the record of one request. */
module Rendering {
  import opened Common
  import opened CommandOperator
  import opened FormatString
  import Calendar
  import Decimal
  import Grpc

  /** What the connection manager records about a request. Durations are in nanoseconds. */
  datatype Record = Record(
    startTime: Calendar.Instant,
    httpMethod: string,
    path: string,
    protocol: string,
    responseCode: nat,
    responseFlags: string,
    bytesReceived: nat,
    bytesSent: nat,
    duration: nat,
    upstreamServiceTime: Option<nat>,
    forwardedFor: Option<string>,
    userAgent: Option<string>,
    requestId: Option<string>,
    authority: Option<string>,
    upstreamHost: Option<string>,
    upstreamCluster: Option<string>,
    routeName: Option<string>,
    responseCodeDetails: Option<string>,
    dynamicMetadata: map<string, map<string, string>>,
    grpcStatus: Option<string>)

  function AsMillis(nanos: nat): (ms: nat)
    ensures ms * 1_000_000 <= nanos < (ms + 1) * 1_000_000
  {
    nanos / 1_000_000
  }

  // ---------------------------------------------------------------------------
  // Truncation by bytes
  // ---------------------------------------------------------------------------

  function Utf8Length(c: char): (n: nat)
    ensures 1 <= n <= 4
    ensures n == 1 <==> c as nat < 0x80
    ensures n <= 2 <==> c as nat < 0x800
    ensures n <= 3 <==> c as nat < 0x1_0000
  {
    if c < '\U{80}' then 1 else if c < '\U{800}' then 2 else if c < '\U{10000}' then 3 else 4
  }

  function ByteLength(s: string): nat {
    if s == [] then 0 else Utf8Length(s[0]) + ByteLength(s[1..])
  }

  /** Cut to at most `n` bytes, down to a character boundary. */
  function TruncateBytes(s: string, n: nat): string {
    if s == [] || Utf8Length(s[0]) > n then ""
    else s[..1] + TruncateBytes(s[1..], n - Utf8Length(s[0]))
  }

  function Truncated(s: string, limit: Option<nat>): string {
    if limit.None? then s else TruncateBytes(s, limit.value)
  }

  /** Truncation keeps the longest prefix that fits: every longer prefix has too many bytes. */
  lemma {:induction false} TruncateIsLongest(s: string, n: nat)
    ensures var t := TruncateBytes(s, n);
      && |t| <= |s| && t == s[..|t|] && ByteLength(t) <= n
      && (forall k | |t| < k <= |s| :: ByteLength(s[..k]) > n)
  {
    var t := TruncateBytes(s, n);
    if s != [] {
      forall k | 1 <= k <= |s|
        ensures ByteLength(s[..k]) == Utf8Length(s[0]) + ByteLength(s[1..][..k - 1])
      {
        assert s[..k][1..] == s[1..][..k - 1];
      }
      if Utf8Length(s[0]) <= n {
        TruncateIsLongest(s[1..], n - Utf8Length(s[0]));
        assert t[1..] == TruncateBytes(s[1..], n - Utf8Length(s[0]));
      }
    }
  }

  predicate Ascii(s: string) {
    forall i | 0 <= i < |s| :: s[i] < '\U{80}'
  }

  /** On ASCII text that is exactly the first `n` characters. */
  lemma {:induction false} TruncateAscii(s: string, n: nat)
    requires Ascii(s)
    ensures TruncateBytes(s, n) == if n < |s| then s[..n] else s
  {
    if s != [] && n > 0 {
      TruncateAscii(s[1..], n - 1);
      assert s == s[..1] + s[1..];
      if n < |s| {
        assert s[..n] == s[..1] + s[1..][..n - 1];
      }
    }
  }

  // ---------------------------------------------------------------------------
  // Values of operators
  // ---------------------------------------------------------------------------

  function ResolveReq(name: string, r: Record): Option<string> {
    if name == ":method" then Some(r.httpMethod)
    else if name == ":path" || name == "x-envoy-original-path" then Some(r.path)
    else if name == ":authority" then r.authority
    else if name == "x-forwarded-for" then r.forwardedFor
    else if name == "user-agent" then r.userAgent
    else if name == "x-request-id" then r.requestId
    else None
  }

  function ResolveResp(name: string, r: Record): Option<string> {
    if name == "x-envoy-upstream-service-time" && r.upstreamServiceTime.Some?
    then Some(Decimal.Text(AsMillis(r.upstreamServiceTime.value)))
    else None
  }

  /** The header a canonical operator stands for: its name, else its alternate. */
  function ResolveHeader(side: Side, name: string, alt: Option<string>, r: Record): Option<string> {
    var first := if side.ReqSide? then ResolveReq(name, r) else ResolveResp(name, r);
    if first.Some? || alt.None? then first
    else if side.ReqSide? then ResolveReq(alt.value, r) else ResolveResp(alt.value, r)
  }

  function Metadata(r: Record, namespace: string, key: string): Option<string> {
    if namespace in r.dynamicMetadata && key in r.dynamicMetadata[namespace]
    then Some(r.dynamicMetadata[namespace][key]) else None
  }

  function Limit(op: Op): Option<nat> {
    match op
    case Req(_, _, truncate) => truncate
    case Resp(_, _, truncate) => truncate
    case _ => None
  }

  /** The value an operator has in a record, before any cut; None when it is absent. */
  ghost function Value(op: Op, r: Record): Option<string> {
    match op
    case StartTime => Some(Calendar.Timestamp(r.startTime))
    case Req(name, alt, _) => ResolveHeader(ReqSide, name, alt, r)
    case Resp(name, alt, _) => ResolveHeader(RespSide, name, alt, r)
    case Protocol => Some(r.protocol)
    case ResponseCode => Some(Decimal.Text(r.responseCode))
    case ResponseFlags => Some(r.responseFlags)
    case BytesReceived => Some(Decimal.Text(r.bytesReceived))
    case BytesSent => Some(Decimal.Text(r.bytesSent))
    case Duration => Some(Decimal.Text(AsMillis(r.duration)))
    case UpstreamHost => r.upstreamHost
    case UpstreamCluster => r.upstreamCluster
    case RouteName => r.routeName
    case ResponseCodeDetails => r.responseCodeDetails
    case DynamicMetadata(ns, key) => Metadata(r, ns, key)
    case GrpcStatus(f) => if r.grpcStatus.None? then None else Some(Grpc.RenderStatus(r.grpcStatus.value, f))
  }

  function OrElse(v: Option<string>, default: string): string {
    if v.Some? then v.value else default
  }

  function Absent(omitEmpty: bool): string {
    if omitEmpty then "" else "-"
  }

  /** An operator as text: its value, or the mark of absence, cut to the operator's limit. */
  ghost function OpText(op: Op, r: Record, omitEmpty: bool): string {
    Truncated(OrElse(Value(op, r), Absent(omitEmpty)), Limit(op))
  }

  ghost function SegmentText(x: Segment, r: Record, omitEmpty: bool): string {
    match x
    case Literal(text) => text
    case Operator(op) => OpText(op, r, omitEmpty)
  }

  /** What a format renders to. */
  ghost function Render(segs: seq<Segment>, r: Record, omitEmpty: bool): string {
    if segs == [] then "" else SegmentText(segs[0], r, omitEmpty) + Render(segs[1..], r, omitEmpty)
  }

  method RenderOp(out: string, op: Op, r: Record, omitEmpty: bool) returns (res: string)
    ensures res == out + OpText(op, r, omitEmpty)
  {
    var emptyOrDash := Absent(omitEmpty);
    match op
    case Protocol => res := out + r.protocol;
    case ResponseCode => res := out + Decimal.Text(r.responseCode);
    case ResponseFlags => res := out + r.responseFlags;
    case BytesReceived => res := out + Decimal.Text(r.bytesReceived);
    case BytesSent => res := out + Decimal.Text(r.bytesSent);
    case Duration => res := out + Decimal.Text(AsMillis(r.duration));
    case StartTime =>
      var stamp := Calendar.FormatIso8601(r.startTime);
      res := out + stamp;
    case UpstreamHost => res := out + OrElse(r.upstreamHost, emptyOrDash);
    case UpstreamCluster => res := out + OrElse(r.upstreamCluster, emptyOrDash);
    case RouteName => res := out + OrElse(r.routeName, emptyOrDash);
    case ResponseCodeDetails => res := out + OrElse(r.responseCodeDetails, emptyOrDash);
    case DynamicMetadata(ns, key) => res := out + OrElse(Metadata(r, ns, key), emptyOrDash);
    case GrpcStatus(f) =>
      if r.grpcStatus.Some? {
        res := out + Grpc.RenderStatus(r.grpcStatus.value, f);
      } else {
        res := out + emptyOrDash;
      }
    case Req(name, alt, truncate) =>
      res := out + Truncated(OrElse(ResolveHeader(ReqSide, name, alt, r), emptyOrDash), truncate);
    case Resp(name, alt, truncate) =>
      res := out + Truncated(OrElse(ResolveHeader(RespSide, name, alt, r), emptyOrDash), truncate);
  }

  lemma RenderStep(segs: seq<Segment>, i: nat, r: Record, omitEmpty: bool)
    requires i < |segs|
    ensures Render(segs[i..], r, omitEmpty) == SegmentText(segs[i], r, omitEmpty) + Render(segs[i + 1..], r, omitEmpty)
  {
    assert segs[i..][1..] == segs[i + 1..];
  }

  lemma RenderEnds(segs: seq<Segment>, out: string, r: Record, omitEmpty: bool)
    ensures Render(segs, r, omitEmpty) == "" + Render(segs[0..], r, omitEmpty)
    ensures out == out + Render(segs[|segs|..], r, omitEmpty)
  {
    assert segs[0..] == segs && segs[|segs|..] == [];
  }

  method RenderSegments(segs: seq<Segment>, r: Record, omitEmpty: bool) returns (out: string)
    ensures out == Render(segs, r, omitEmpty)
  {
    hide Render;
    out := "";
    RenderEnds(segs, out, r, omitEmpty);
    for i := 0 to |segs|
      invariant Render(segs, r, omitEmpty) == out + Render(segs[i..], r, omitEmpty)
    {
      RenderStep(segs, i, r, omitEmpty);
      Associate(out, SegmentText(segs[i], r, omitEmpty), Render(segs[i + 1..], r, omitEmpty));
      match segs[i] {
        case Literal(text) => out := out + text;
        case Operator(op) => out := RenderOp(out, op, r, omitEmpty);
      }
    }
    RenderEnds(segs, out, r, omitEmpty);
  }

  // ---------------------------------------------------------------------------
  // What each operator prints
  // ---------------------------------------------------------------------------

  /** The operators of fields that are always there. */
  lemma PlainTexts(r: Record, omitEmpty: bool)
    ensures OpText(StartTime, r, omitEmpty) == Calendar.Timestamp(r.startTime)
    ensures OpText(Protocol, r, omitEmpty) == r.protocol
    ensures OpText(ResponseCode, r, omitEmpty) == Decimal.Text(r.responseCode)
    ensures OpText(ResponseFlags, r, omitEmpty) == r.responseFlags
    ensures OpText(BytesReceived, r, omitEmpty) == Decimal.Text(r.bytesReceived)
    ensures OpText(BytesSent, r, omitEmpty) == Decimal.Text(r.bytesSent)
    ensures OpText(Duration, r, omitEmpty) == Decimal.Text(r.duration / 1_000_000)
  {
    hide Calendar.Timestamp;
    hide Decimal.Text;
  }

  /** The optional fields print as they are, or as the mark of absence. */
  lemma OptionalTexts(r: Record, omitEmpty: bool)
    ensures var none := if omitEmpty then "" else "-";
      && OpText(UpstreamHost, r, omitEmpty) == (if r.upstreamHost.Some? then r.upstreamHost.value else none)
      && OpText(UpstreamCluster, r, omitEmpty) == (if r.upstreamCluster.Some? then r.upstreamCluster.value else none)
      && OpText(RouteName, r, omitEmpty) == (if r.routeName.Some? then r.routeName.value else none)
      && OpText(ResponseCodeDetails, r, omitEmpty)
         == (if r.responseCodeDetails.Some? then r.responseCodeDetails.value else none)
  {
  }

  /** The operators with an argument. */
  lemma ArgumentTexts(ns: string, key: string, f: GrpcFormat, r: Record, omitEmpty: bool)
    ensures var none := if omitEmpty then "" else "-";
      && OpText(DynamicMetadata(ns, key), r, omitEmpty) ==
         (if ns in r.dynamicMetadata && key in r.dynamicMetadata[ns] then r.dynamicMetadata[ns][key] else none)
      && OpText(GrpcStatus(f), r, omitEmpty) ==
         (if r.grpcStatus.Some? then Grpc.RenderStatus(r.grpcStatus.value, f) else none)
  {
    hide Grpc.RenderStatus;
  }

  /** The fields behind the header names. */
  lemma HeaderFields(r: Record)
    ensures ResolveReq(":method", r) == Some(r.httpMethod)
    ensures ResolveReq(":path", r) == ResolveReq("x-envoy-original-path", r) == Some(r.path)
    ensures ResolveReq(":authority", r) == r.authority
    ensures ResolveReq("x-forwarded-for", r) == r.forwardedFor
    ensures ResolveReq("user-agent", r) == r.userAgent
    ensures ResolveReq("x-request-id", r) == r.requestId
    ensures ResolveResp("x-envoy-upstream-service-time", r) ==
      if r.upstreamServiceTime.None? then None else Some(Decimal.Text(r.upstreamServiceTime.value / 1_000_000))
  {
  }

  /** A header prints its value, else its alternate's, else the mark of absence; a length cuts
      whichever of these it is. */
  lemma HeaderTexts(name: string, alt: Option<string>, r: Record, omitEmpty: bool, limit: nat)
    ensures var none := if omitEmpty then "" else "-";
      var first := ResolveReq(name, r);
      var second := if alt.None? then None else ResolveReq(alt.value, r);
      var text := if first.Some? then first.value else if second.Some? then second.value else none;
      OpText(Req(name, alt, None), r, omitEmpty) == text && OpText(Req(name, alt, Some(limit)), r, omitEmpty) == TruncateBytes(text, limit)
    ensures var none := if omitEmpty then "" else "-";
      var first := ResolveResp(name, r);
      var second := if alt.None? then None else ResolveResp(alt.value, r);
      var text := if first.Some? then first.value else if second.Some? then second.value else none;
      OpText(Resp(name, alt, None), r, omitEmpty) == text && OpText(Resp(name, alt, Some(limit)), r, omitEmpty) == TruncateBytes(text, limit)
  {
    hide ResolveReq;
    hide ResolveResp;
    hide TruncateBytes;
  }

  // ---------------------------------------------------------------------------
  // The allow list is exactly the set of backed names
  // ---------------------------------------------------------------------------

  predicate BackedReq(name: string) {
    || name == ":method" || name == ":path" || name == "x-envoy-original-path" || name == ":authority"
    || name == "x-forwarded-for" || name == "user-agent" || name == "x-request-id"
  }

  lemma AllowListReq(name: string)
    ensures name in REQ_ALLOW_LIST <==> BackedReq(name)
  {
  }

  /** A record in which every optional field holds `v`. */
  function FullRecord(v: string): Record {
    Record(0, v, v, v, 0, v, 0, 0, 0, Some(0), Some(v), Some(v), Some(v), Some(v), Some(v), Some(v), Some(v),
      Some(v), map[], Some(v))
  }

  /** A request header is accepted by the parser exactly when some record has a value for it. */
  lemma ReqBackedIffResolvable(name: string)
    ensures name in REQ_ALLOW_LIST <==> exists r :: ResolveReq(name, r).Some?
  {
    AllowListReq(name);
    if BackedReq(name) {
      assert ResolveReq(name, FullRecord("")).Some?;
    }
  }

  lemma RespBackedIffResolvable(name: string)
    ensures name in RESP_ALLOW_LIST <==> exists r :: ResolveResp(name, r).Some?
  {
    if name in RESP_ALLOW_LIST {
      assert ResolveResp(name, FullRecord("")).Some?;
    }
  }

  // ---------------------------------------------------------------------------
  // Rendering and concatenation
  // ---------------------------------------------------------------------------

  lemma RenderPrepend(l: string, segs: seq<Segment>, r: Record, omitEmpty: bool)
    ensures Render(Prepend(l, segs), r, omitEmpty) == l + Render(segs, r, omitEmpty)
  {
    hide OpText;
    var p := Prepend(l, segs);
    if l != [] {
      if segs != [] && segs[0].Literal? {
        assert p[1..] == segs[1..];
      } else {
        assert p[1..] == segs;
      }
    }
  }

  lemma RenderAttach(x: Segment, segs: seq<Segment>, r: Record, omitEmpty: bool)
    ensures Render(Attach(x, segs), r, omitEmpty) == SegmentText(x, r, omitEmpty) + Render(segs, r, omitEmpty)
  {
    hide OpText;
    if x.Literal? {
      RenderPrepend(x.text, segs, r, omitEmpty);
    } else {
      assert ([x] + segs)[1..] == segs;
    }
  }

  /** Merging literals where two formats meet does not change what they render to. */
  lemma {:induction false} RenderJoin(a: seq<Segment>, b: seq<Segment>, r: Record, omitEmpty: bool)
    ensures Render(Join(a, b), r, omitEmpty) == Render(a, r, omitEmpty) + Render(b, r, omitEmpty)
  {
    hide OpText;
    if a != [] {
      RenderJoin(a[1..], b, r, omitEmpty);
      RenderAttach(a[0], Join(a[1..], b), r, omitEmpty);
      Associate(SegmentText(a[0], r, omitEmpty), Render(a[1..], r, omitEmpty), Render(b, r, omitEmpty));
    } else {
      assert "" + Render(b, r, omitEmpty) == Render(b, r, omitEmpty);
    }
  }

  /** Rendering distributes over concatenation of format strings. */
  lemma RenderConcat(s: string, t: string, r: Record, omitEmpty: bool)
    ensures Parse(s).Ok? && Parse(t).Ok? ==>
      && Parse(s + t).Ok?
      && Render(Parse(s + t).value, r, omitEmpty)
         == Render(Parse(s).value, r, omitEmpty) + Render(Parse(t).value, r, omitEmpty)
  {
    hide Render;
    hide Parse;
    if Parse(s).Ok? && Parse(t).Ok? {
      ParseConcat(s, t);
      RenderJoin(Parse(s).value, Parse(t).value, r, omitEmpty);
    }
  }

  /** Any text with its percent signs doubled renders to itself, for every record. */
  lemma EscapedTextRendersItself(text: string, r: Record, omitEmpty: bool)
    ensures Parse(Escape(text)).Ok? && Render(Parse(Escape(text)).value, r, omitEmpty) == text
  {
    hide OpText;
    EscapeRoundTrip(text);
    RenderPrepend(text, [], r, omitEmpty);
    assert text + "" == text;
  }
}
