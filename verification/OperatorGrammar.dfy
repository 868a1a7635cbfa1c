/** The language of operator bodies, written down as a grammar, and the proof that the parser
    accepts exactly that language with exactly that meaning. */
module OperatorGrammar {
  import opened Common
  import opened CommandOperator
  import Decimal

  // ---------------------------------------------------------------------------
  // The grammar
  // ---------------------------------------------------------------------------

  /** `NAME` or `NAME?ALT`, in any case. */
  ghost predicate SpellsNames(arg: string, name: string, alt: Option<string>) {
    if alt.None? then '?' !in arg && Lower(arg) == name
    else exists n, a :: arg == n + "?" + a && '?' !in n && a != [] && Lower(n) == name && Lower(a) == alt.value
  }

  /** Nothing, or `:N` with decimal digits of a 64-bit length. */
  ghost predicate SpellsLength(after: string, truncate: Option<nat>) {
    if truncate.None? then after == ""
    else exists digits :: after == ":" + digits && digits != [] && Decimal.AllDigits(digits)
           && Decimal.Value(digits) == truncate.value < TWO_64
  }

  /** `(NAMES)` and the length; one of the names is backed by the record. */
  ghost predicate SpellsHeader(rest: string, side: Side, name: string, alt: Option<string>, truncate: Option<nat>) {
    exists arg, after ::
      && rest == "(" + arg + ")" + after && ')' !in arg
      && SpellsNames(arg, name, alt) && SpellsLength(after, truncate) && Backed(side, name, alt)
  }

  ghost predicate SpellsMetadata(rest: string, ns: string, key: string) {
    && rest == "(" + (ns + ":" + key) + ")"
    && ns != [] && ':' !in ns && ')' !in ns
    && key != [] && ':' !in key && ')' !in key
  }

  /** An argument that may be left out, or be empty. */
  ghost predicate NoArgument(rest: Option<string>) {
    rest.None? || rest == Some("()")
  }

  ghost predicate SpellsGrpc(rest: Option<string>, f: GrpcFormat) {
    || (f.CamelString? && (NoArgument(rest) || rest == Some("(" + "CAMEL_STRING" + ")")))
    || (f.SnakeString? && rest == Some("(" + "SNAKE_STRING" + ")"))
    || (f.Number? && rest == Some("(" + "NUMBER" + ")"))
  }

  /** The keywords of the operators without an argument. */
  predicate PlainKeyword(op: Op, keyword: string) {
    match op
    case StartTime => keyword == "START_TIME"
    case Protocol => keyword == "PROTOCOL"
    case ResponseCode => keyword == "RESPONSE_CODE"
    case ResponseFlags => keyword == "RESPONSE_FLAGS"
    case BytesReceived => keyword == "BYTES_RECEIVED"
    case BytesSent => keyword == "BYTES_SENT"
    case Duration => keyword == "DURATION"
    case UpstreamHost => keyword == "UPSTREAM_HOST"
    case UpstreamCluster => keyword == "UPSTREAM_CLUSTER"
    case RouteName => keyword == "ROUTE_NAME"
    case ResponseCodeDetails => keyword == "RESPONSE_CODE_DETAILS"
    case _ => false
  }

  lemma PlainKeywordIs(op: Op, keyword: string)
    ensures PlainKeyword(op, keyword) <==> Argument(op).None? && keyword == Keyword(op)
  {
  }

  /** The keyword and the rest of a body, and the operator they stand for. */
  ghost predicate SpellsParts(op: Op, keyword: string, rest: Option<string>) {
    match op
    case Req(name, alt, truncate) => keyword == "REQ" && rest.Some? && SpellsHeader(rest.value, ReqSide, name, alt, truncate)
    case Resp(name, alt, truncate) => keyword == "RESP" && rest.Some? && SpellsHeader(rest.value, RespSide, name, alt, truncate)
    case DynamicMetadata(ns, key) => keyword == "DYNAMIC_METADATA" && rest.Some? && SpellsMetadata(rest.value, ns, key)
    case GrpcStatus(f) =>
      || (keyword == "GRPC_STATUS" && SpellsGrpc(rest, f))
      || (keyword == "GRPC_STATUS_NUMBER" && f.Number? && NoArgument(rest))
    case _ => PlainKeyword(op, keyword) && NoArgument(rest)
  }

  /** A body is a keyword, followed by nothing or by something that opens a parenthesis. */
  ghost predicate SplitsInto(body: string, keyword: string, rest: Option<string>) {
    && '(' !in keyword && (rest.Some? ==> rest.value != [] && rest.value[0] == '(')
    && body == keyword + if rest.Some? then rest.value else ""
  }

  ghost predicate Spells(op: Op, body: string) {
    exists keyword, rest :: SplitsInto(body, keyword, rest) && SpellsParts(op, keyword, rest)
  }

  // ---------------------------------------------------------------------------
  // Arguments
  // ---------------------------------------------------------------------------

  lemma NamesIff(keyword: string, arg: string, name: string, alt: Option<string>)
    ensures ParseNames(keyword, arg) == Ok((name, alt)) <==> SpellsNames(arg, name, alt)
  {
    var p := IndexOf(arg, '?');
    if p.Some? {
      assert arg == arg[..p.value] + "?" + arg[p.value + 1..];
    }
    if alt.Some? && SpellsNames(arg, name, alt) {
      var n, a :| arg == n + "?" + a && '?' !in n && a != [] && Lower(n) == name && Lower(a) == alt.value;
      IndexOfSplit(n, '?', a);
      assert arg == n + ['?'] + a && arg[..|n|] == n && arg[|n| + 1..] == a;
    }
  }

  lemma LengthIff(keyword: string, after: string, truncate: Option<nat>)
    ensures ParseTruncate(keyword, after) == Ok(truncate) <==> SpellsLength(after, truncate)
  {
    if after != [] && after[0] == ':' {
      assert after == ":" + after[1..];
    }
    if truncate.Some? && SpellsLength(after, truncate) {
      var digits :| after == ":" + digits && digits != [] && Decimal.AllDigits(digits)
        && Decimal.Value(digits) == truncate.value < TWO_64;
      assert after[1..] == digits;
    }
  }

  lemma ClosedSplit(rest: string, arg: string, after: string)
    requires rest == "(" + arg + ")" + after && ')' !in arg
    ensures IndexOf(rest, ')') == Some(|arg| + 1) && rest[1..|arg| + 1] == arg && rest[|arg| + 2..] == after
  {
    SplitArgument(arg, after);
  }

  /** The only way to read a text as a parenthesized argument and what follows. */
  lemma ClosedAt(rest: string, close: nat)
    requires rest != [] && rest[0] == '(' && IndexOf(rest, ')') == Some(close)
    ensures close >= 1 && rest == "(" + rest[1..close] + ")" + rest[close + 1..] && ')' !in rest[1..close]
  {
    assert rest[..close] == "(" + rest[1..close];
    assert rest == rest[..close] + ")" + rest[close + 1..];
  }

  lemma HeaderParsedSpells(keyword: string, rest: string, side: Side, name: string, alt: Option<string>, truncate: Option<nat>)
    requires rest != [] && rest[0] == '('
    requires ParseHeader(keyword, Some(rest), side) == Ok(HeaderOp(side, name, alt, truncate))
    ensures SpellsHeader(rest, side, name, alt, truncate)
  {
    hide SpellsNames;
    hide SpellsLength;
    hide ParseNames;
    hide ParseTruncate;
    var close := IndexOf(rest, ')').value;
    ClosedAt(rest, close);
    NamesIff(keyword, rest[1..close], name, alt);
    LengthIff(keyword, rest[close + 1..], truncate);
  }

  lemma HeaderSpelledParses(keyword: string, rest: string, side: Side, name: string, alt: Option<string>, truncate: Option<nat>)
    requires rest != [] && rest[0] == '(' && SpellsHeader(rest, side, name, alt, truncate)
    ensures ParseHeader(keyword, Some(rest), side) == Ok(HeaderOp(side, name, alt, truncate))
  {
    hide SpellsNames;
    hide SpellsLength;
    hide ParseNames;
    hide ParseTruncate;
    var arg, after :|
      && rest == "(" + arg + ")" + after && ')' !in arg
      && SpellsNames(arg, name, alt) && SpellsLength(after, truncate) && Backed(side, name, alt);
    ClosedSplit(rest, arg, after);
    NamesIff(keyword, arg, name, alt);
    LengthIff(keyword, after, truncate);
  }

  lemma MetadataParsedSpells(keyword: string, rest: string, ns: string, key: string)
    requires rest != [] && rest[0] == '('
    requires ParseDynamicMetadata(keyword, Some(rest)) == Ok(DynamicMetadata(ns, key))
    ensures SpellsMetadata(rest, ns, key)
  {
    var close := IndexOf(rest, ')').value;
    ClosedAt(rest, close);
    var arg := rest[1..close];
    assert arg == ns + ":" + key;
    assert "(" + arg + ")" + "" == "(" + arg + ")";
  }

  lemma MetadataSpelledParses(keyword: string, rest: string, ns: string, key: string)
    requires rest != [] && rest[0] == '(' && SpellsMetadata(rest, ns, key)
    ensures ParseDynamicMetadata(keyword, Some(rest)) == Ok(DynamicMetadata(ns, key))
  {
    var arg := ns + ":" + key;
    assert ')' !in arg && "(" + arg + ")" + "" == "(" + arg + ")";
    ClosedSplit(rest, arg, "");
    IndexOfSplit(ns, ':', key);
    assert arg[..|ns|] == ns && arg[|ns| + 1..] == key;
  }

  lemma GrpcParsedSpells(keyword: string, rest: Option<string>, f: GrpcFormat)
    requires rest.Some? ==> rest.value != [] && rest.value[0] == '('
    requires ParseGrpcStatus(keyword, rest) == Ok(GrpcStatus(f))
    ensures SpellsGrpc(rest, f)
  {
    if rest.Some? {
      var close := IndexOf(rest.value, ')').value;
      ClosedAt(rest.value, close);
      var arg := rest.value[1..close];
      assert rest.value[close + 1..] == "";
      assert rest.value == "(" + arg + ")";
      assert arg == "" || arg == GrpcName(f);
      assert arg == "" ==> rest.value == "()";
    }
  }

  lemma GrpcSpelledParses(keyword: string, rest: Option<string>, f: GrpcFormat)
    requires rest.Some? ==> rest.value != [] && rest.value[0] == '('
    requires SpellsGrpc(rest, f)
    ensures ParseGrpcStatus(keyword, rest) == Ok(GrpcStatus(f))
  {
    if rest == Some("(" + GrpcName(f) + ")") {
      GrpcRoundTrip(keyword, f);
    } else if rest == Some("()") {
      assert rest.value == "(" + "" + ")" + "";
      ClosedSplit(rest.value, "", "");
    }
  }

  // ---------------------------------------------------------------------------
  // Keywords
  // ---------------------------------------------------------------------------

  /** The keyword table: every plain operator under its own keyword, and one alias. */
  lemma NoArgMeans(keyword: string)
    ensures var r := NoArgOp(keyword);
      r.Some? ==>
        || (Argument(r.value).None? && keyword == Keyword(r.value))
        || (r == Some(GrpcStatus(Number)) && keyword == "GRPC_STATUS_NUMBER")
  {
  }

  lemma AliasMeans()
    ensures NoArgOp("GRPC_STATUS_NUMBER") == Some(GrpcStatus(Number))
    ensures ParseSplit("GRPC_STATUS_NUMBER", None) == Ok(GrpcStatus(Number))
    ensures ParseSplit("GRPC_STATUS_NUMBER", Some("()")) == Ok(GrpcStatus(Number))
  {
  }

  lemma EmptyArgument(op: Op)
    requires Argument(op).None?
    ensures ParseSplit(Keyword(op), Some("()")) == Ok(op)
  {
    hide Keyword;
    hide NoArgOp;
    KeywordClean(op);
    NoArgumentRoundTrip(op);
  }

  lemma PlainParsedSpells(keyword: string, rest: Option<string>, op: Op)
    requires NoArgOp(keyword) == Some(op) && NoArgument(rest)
    ensures SpellsParts(op, keyword, rest)
  {
    hide NoArgOp;
    hide PlainKeyword;
    NoArgMeans(keyword);
    PlainKeywordIs(op, keyword);
    hide Keyword;
  }

  lemma SplitParsedSpells(keyword: string, rest: Option<string>, op: Op)
    requires rest.Some? ==> rest.value != [] && rest.value[0] == '('
    requires ParseSplit(keyword, rest) == Ok(op)
    ensures SpellsParts(op, keyword, rest)
  {
    hide NoArgOp;
    hide ParseHeader;
    hide ParseDynamicMetadata;
    hide ParseGrpcStatus;
    hide SpellsHeader;
    hide SpellsMetadata;
    hide SpellsGrpc;
    ParsedConstructor(keyword, rest, op);
    if keyword == "REQ" {
      HeaderParsedSpells(keyword, rest.value, ReqSide, op.name, op.alt, op.truncate);
    } else if keyword == "RESP" {
      HeaderParsedSpells(keyword, rest.value, RespSide, op.name, op.alt, op.truncate);
    } else if keyword == "DYNAMIC_METADATA" {
      MetadataParsedSpells(keyword, rest.value, op.namespace, op.key);
    } else if keyword == "GRPC_STATUS" {
      GrpcParsedSpells(keyword, rest, op.format);
    } else {
      PlainParsedSpells(keyword, rest, op);
    }
  }

  /** Each parser produces its own kind of operator. */
  lemma ParsedConstructor(keyword: string, rest: Option<string>, op: Op)
    requires rest.Some? ==> rest.value != [] && rest.value[0] == '('
    requires ParseSplit(keyword, rest) == Ok(op)
    ensures keyword == "REQ" ==> rest.Some? && op.Req?
    ensures keyword == "RESP" ==> rest.Some? && op.Resp?
    ensures keyword == "DYNAMIC_METADATA" ==> rest.Some? && op.DynamicMetadata?
    ensures keyword == "GRPC_STATUS" ==> op.GrpcStatus?
  {
    hide NoArgOp;
  }

  lemma SplitSpelledParses(keyword: string, rest: Option<string>, op: Op)
    requires rest.Some? ==> rest.value != [] && rest.value[0] == '('
    requires SpellsParts(op, keyword, rest)
    ensures ParseSplit(keyword, rest) == Ok(op)
  {
    hide ParseSplit;
    hide ParseHeader;
    hide ParseDynamicMetadata;
    hide ParseGrpcStatus;
    hide SpellsHeader;
    hide SpellsMetadata;
    hide SpellsGrpc;
    hide Keyword;
    hide PlainKeyword;
    match op
    case Req(name, alt, truncate) =>
      HeaderSpelledParses("REQ", rest.value, ReqSide, name, alt, truncate);
      DispatchReq(rest.value);
    case Resp(name, alt, truncate) =>
      HeaderSpelledParses("RESP", rest.value, RespSide, name, alt, truncate);
      DispatchResp(rest.value);
    case DynamicMetadata(ns, key) =>
      MetadataSpelledParses("DYNAMIC_METADATA", rest.value, ns, key);
      DispatchMetadata(rest.value);
    case GrpcStatus(f) =>
      if keyword == "GRPC_STATUS" && SpellsGrpc(rest, f) {
        GrpcSpelledParses("GRPC_STATUS", rest, f);
        GrpcDispatch(rest);
      } else {
        AliasMeans();
      }
    case _ =>
      PlainKeywordIs(op, keyword);
      NoArgumentSplit(op);
      EmptyArgument(op);
  }

  lemma GrpcDispatch(rest: Option<string>)
    requires rest.Some? ==> rest.value != [] && rest.value[0] == '('
    ensures ParseSplit("GRPC_STATUS", rest) == ParseGrpcStatus("GRPC_STATUS", rest)
  {
    hide NoArgOp;
    hide ParseGrpcStatus;
  }

  // ---------------------------------------------------------------------------
  // The whole body
  // ---------------------------------------------------------------------------

  lemma SplitOf(body: string) returns (keyword: string, rest: Option<string>)
    ensures SplitsInto(body, keyword, rest) && ParseOperator(body) == ParseSplit(keyword, rest)
  {
    hide ParseSplit;
    var p := IndexOf(body, '(');
    if p.None? {
      keyword, rest := body, None;
      assert body + "" == body;
    } else {
      keyword, rest := body[..p.value], Some(body[p.value..]);
      assert keyword + rest.value == body;
    }
  }

  lemma SplitIsUnique(body: string, keyword: string, rest: Option<string>)
    requires SplitsInto(body, keyword, rest)
    ensures ParseOperator(body) == ParseSplit(keyword, rest)
  {
    hide ParseSplit;
    hide ParseOperator;
    SplitBody(keyword, rest);
  }

  /** The parser accepts exactly the bodies the grammar spells, each with its one meaning. */
  lemma ParsesIffSpelled(body: string, op: Op)
    ensures ParseOperator(body) == Ok(op) <==> Spells(op, body)
  {
    hide ParseSplit;
    hide ParseOperator;
    hide SpellsParts;
    var keyword, rest := SplitOf(body);
    if ParseOperator(body) == Ok(op) {
      SplitParsedSpells(keyword, rest, op);
    }
    if Spells(op, body) {
      var k, t :| SplitsInto(body, k, t) && SpellsParts(op, k, t);
      SplitIsUnique(body, k, t);
      SplitSpelledParses(k, t, op);
    }
  }

  // ---------------------------------------------------------------------------
  // Errors
  // ---------------------------------------------------------------------------

  /** The keywords there are. */
  ghost predicate Known(keyword: string) {
    || keyword == "REQ" || keyword == "RESP" || keyword == "DYNAMIC_METADATA" || keyword == "GRPC_STATUS"
    || keyword == "GRPC_STATUS_NUMBER" || exists op :: PlainKeyword(op, keyword)
  }

  lemma NoArgKnown(keyword: string)
    ensures NoArgOp(keyword).Some? ==> Known(keyword)
  {
    hide NoArgOp;
    hide PlainKeyword;
    NoArgMeans(keyword);
    if NoArgOp(keyword).Some? {
      PlainKeywordIs(NoArgOp(keyword).value, keyword);
    }
    hide Keyword;
  }

  /** A missing keyword, a keyword that does not exist, and an argument where none is taken. */
  lemma KeywordErrors(keyword: string, rest: Option<string>, op: Op)
    requires rest.Some? ==> rest.value != [] && rest.value[0] == '('
    ensures keyword == [] ==> ParseSplit(keyword, rest) == Err(EmptyOperator)
    ensures keyword != [] && !Known(keyword) ==> ParseSplit(keyword, rest) == Err(UnknownKeyword(keyword))
    ensures PlainKeyword(op, keyword) && rest.Some? && rest.value != "()" ==>
      ParseSplit(keyword, rest) == Err(MalformedArgument(keyword, TakesNoArgument))
  {
    hide NoArgOp;
    hide PlainKeyword;
    hide ParseHeader;
    hide ParseDynamicMetadata;
    hide ParseGrpcStatus;
    NoArgKnown(keyword);
    PlainKeywordIs(op, keyword);
    if PlainKeyword(op, keyword) {
      NoArgumentRoundTrip(op);
      KeywordClean(op);
    }
    hide Keyword;
  }

  lemma EmptyAlternateFails(keyword: string, arg: string)
    requires arg != [] && arg[|arg| - 1] == '?' && '?' !in arg[..|arg| - 1]
    ensures ParseNames(keyword, arg) == Err(MalformedArgument(keyword, EmptyAlternate))
  {
    IndexOfSplit(arg[..|arg| - 1], '?', "");
    assert arg == arg[..|arg| - 1] + ['?'] + "";
  }

  lemma LengthErrors(keyword: string, after: string)
    requires after != []
    ensures after[0] != ':' ==> ParseTruncate(keyword, after) == Err(MalformedArgument(keyword, TrailingText(after)))
    ensures after[0] == ':' && (after == ":" || !Decimal.AllDigits(after[1..]) || Decimal.Value(after[1..]) >= TWO_64) ==>
      ParseTruncate(keyword, after) == Err(BadTruncate(after[1..]))
  {
  }

  /** Why a header operator is turned away, in the order the parser looks. */
  lemma HeaderErrors(keyword: string, side: Side, arg: string, after: string, name: string, alt: Option<string>, truncate: Option<nat>)
    requires ')' !in arg
    ensures ParseHeader(keyword, None, side) == Err(MalformedArgument(keyword, MissingArgument))
    ensures ParseHeader(keyword, Some("(" + arg), side) == Err(MalformedArgument(keyword, MissingParen))
    ensures var r := ParseHeader(keyword, Some("(" + arg + ")" + after), side);
      && (after != [] && after[0] != ':' ==> r == Err(MalformedArgument(keyword, TrailingText(after))))
      && (after != [] && after[0] == ':' && (after == ":" || !Decimal.AllDigits(after[1..]) || Decimal.Value(after[1..]) >= TWO_64) ==>
            r == Err(BadTruncate(after[1..])))
      && (SpellsLength(after, truncate) && arg != [] && arg[|arg| - 1] == '?' && '?' !in arg[..|arg| - 1] ==>
            r == Err(MalformedArgument(keyword, EmptyAlternate)))
      && (SpellsLength(after, truncate) && SpellsNames(arg, name, alt) && !Backed(side, name, alt) ==>
            r == Err(UnsupportedHeader(side, name)))
  {
    hide SpellsNames;
    hide SpellsLength;
    hide Backed;
    hide ParseNames;
    hide ParseTruncate;
    SplitArgument(arg, after);
    NamesIff(keyword, arg, name, alt);
    LengthIff(keyword, after, truncate);
    if after != [] {
      LengthErrors(keyword, after);
    }
    if arg != [] && arg[|arg| - 1] == '?' && '?' !in arg[..|arg| - 1] {
      EmptyAlternateFails(keyword, arg);
    }
  }

  /** Why a metadata or a gRPC operator is turned away. */
  lemma ArgumentErrors(keyword: string, arg: string, after: string)
    requires ')' !in arg
    ensures ParseDynamicMetadata(keyword, None) == Err(MalformedArgument(keyword, MissingArgument))
    ensures ParseDynamicMetadata(keyword, Some("(" + arg)) == ParseGrpcStatus(keyword, Some("(" + arg)) ==
      Err(MalformedArgument(keyword, MissingParen))
    ensures var rest := Some("(" + arg + ")" + after);
      && (after != [] ==>
            && ParseDynamicMetadata(keyword, rest) == Err(MalformedArgument(keyword, NoLengthAllowed))
            && ParseGrpcStatus(keyword, rest) == Err(MalformedArgument(keyword, NoLengthAllowed)))
      && (after == [] && (forall ns, key :: ns != [] && key != [] && ':' !in ns && ':' !in key ==> arg != ns + ":" + key) ==>
            ParseDynamicMetadata(keyword, rest) == Err(MalformedArgument(keyword, NotNamespaceKey)))
      && (after == [] && arg != "" && arg != "CAMEL_STRING" && arg != "SNAKE_STRING" && arg != "NUMBER" ==>
            ParseGrpcStatus(keyword, rest) == Err(MalformedArgument(keyword, UnknownGrpcFormat(arg))))
  {
    SplitArgument(arg, after);
    var p := IndexOf(arg, ':');
    if p.Some? {
      assert arg == arg[..p.value] + ":" + arg[p.value + 1..];
    }
  }
}
