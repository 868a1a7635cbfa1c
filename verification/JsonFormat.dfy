/** JSON access logs: compiling a tree of format strings and rendering one line per request. */
module JsonFormat {
  import opened Common
  import opened CommandOperator
  import opened Json
  import opened Rendering
  import Decimal
  import FormatString
  import Calendar
  import Grpc
  import Lex

  /** A configured value. The members of an object are a sorted map's entries in key order. */
  datatype Input =
    | NullInput
    | BoolInput(b: bool)
    | FormatInput(text: string)
    | ArrayInput(items: seq<Input>)
    | ObjectInput(members: seq<(string, Input)>)

  datatype Compiled =
    | CNull
    | CBool(b: bool)
    | CLeaf(segments: seq<FormatString.Segment>)
    | CArray(items: seq<Compiled>)
    | CObject(members: seq<(string, Compiled)>)

  // ---------------------------------------------------------------------------
  // Sorted maps
  // ---------------------------------------------------------------------------

  /** Keys strictly ascending. */
  predicate Ascending<T>(members: seq<(string, T)>) {
    forall i, j | 0 <= i < j < |members| :: Lex.Less(members[i].0, members[j].0)
  }

  /** Insert or replace at the key's place. */
  function Insert<T>(members: seq<(string, T)>, key: string, value: T): seq<(string, T)> {
    if members == [] || Lex.Less(key, members[0].0) then [(key, value)] + members
    else if key == members[0].0 then [(key, value)] + members[1..]
    else [members[0]] + Insert(members[1..], key, value)
  }

  lemma {:induction false} InsertLast<T>(members: seq<(string, T)>, key: string, value: T)
    requires forall i | 0 <= i < |members| :: Lex.Less(members[i].0, key)
    ensures Insert(members, key, value) == members + [(key, value)]
  {
    if members != [] {
      Lex.Total(members[0].0, key);
      InsertLast(members[1..], key, value);
      assert members == [members[0]] + members[1..];
    }
  }

  /** What the type of a sorted map guarantees, at every level. */
  predicate WellFormed(v: Input) {
    match v
    case ArrayInput(items) => forall i | 0 <= i < |items| :: WellFormed(items[i])
    case ObjectInput(members) => Ascending(members) && forall i | 0 <= i < |members| :: WellFormed(members[i].1)
    case _ => true
  }

  predicate SortedKeys(j: Json) {
    match j
    case Arr(items) => forall i | 0 <= i < |items| :: SortedKeys(items[i])
    case Obj(members) => Ascending(members) && forall i | 0 <= i < |members| :: SortedKeys(members[i].1)
    case _ => true
  }

  // ---------------------------------------------------------------------------
  // Compiling
  // ---------------------------------------------------------------------------

  function Concat(xs: seq<seq<string>>): seq<string> {
    if xs == [] then [] else Concat(xs[..|xs| - 1]) + xs[|xs| - 1]
  }

  /** The format strings of a value, in the order they are met. */
  function Leaves(v: Input): seq<string> {
    match v
    case FormatInput(text) => [text]
    case ArrayInput(items) => Concat(seq(|items|, i requires 0 <= i < |items| => Leaves(items[i])))
    case ObjectInput(members) => Concat(seq(|members|, i requires 0 <= i < |members| => Leaves(members[i].1)))
    case _ => []
  }

  /** The error of the first format string that does not parse. */
  function FirstError(texts: seq<string>): Option<ParseError> {
    if texts == [] then None
    else if FormatString.Parse(texts[0]).Err? then Some(FormatString.Parse(texts[0]).error)
    else FirstError(texts[1..])
  }

  /** The compiled value has the shape of the configured one: every format string parsed,
      everything else as it was, keys included. */
  predicate Mirrors(v: Input, c: Compiled) {
    match v
    case NullInput => c == CNull
    case BoolInput(b) => c == CBool(b)
    case FormatInput(text) => c.CLeaf? && FormatString.Parse(text) == Ok(c.segments)
    case ArrayInput(items) =>
      c.CArray? && |c.items| == |items| && forall i | 0 <= i < |items| :: Mirrors(items[i], c.items[i])
    case ObjectInput(members) =>
      && c.CObject? && |c.members| == |members|
      && forall i | 0 <= i < |members| ::
           c.members[i].0 == members[i].0 && Mirrors(members[i].1, c.members[i].1)
  }

  lemma {:induction false} FirstErrorConcat(a: seq<string>, b: seq<string>)
    ensures FirstError(a + b) == if FirstError(a).Some? then FirstError(a) else FirstError(b)
  {
    hide FormatString.Parse;
    if a == [] {
      assert a + b == b;
    } else {
      assert (a + b)[1..] == a[1..] + b;
      FirstErrorConcat(a[1..], b);
    }
  }

  lemma {:induction false} ConcatSplit(xs: seq<seq<string>>, k: nat) returns (rest: seq<string>)
    requires k <= |xs|
    ensures Concat(xs) == Concat(xs[..k]) + rest
  {
    if k == |xs| {
      rest := [];
      assert xs[..k] == xs && Concat(xs) + [] == Concat(xs);
    } else {
      var n := |xs| - 1;
      assert xs[..n][..k] == xs[..k];
      rest := ConcatSplit(xs[..n], k);
      Associate(Concat(xs[..k]), rest, xs[n]);
      rest := rest + xs[n];
    }
  }

  /** An error among the first `k` lists is the first error of them all. */
  lemma FirstErrorPrefix(xs: seq<seq<string>>, k: nat)
    requires k <= |xs| && FirstError(Concat(xs[..k])).Some?
    ensures FirstError(Concat(xs)) == FirstError(Concat(xs[..k]))
  {
    hide FormatString.Parse;
    var rest := ConcatSplit(xs, k);
    FirstErrorConcat(Concat(xs[..k]), rest);
  }

  lemma FirstErrorStep(xs: seq<seq<string>>, i: nat)
    requires i < |xs| && FirstError(Concat(xs[..i])).None?
    ensures FirstError(Concat(xs[..i + 1])) == FirstError(xs[i])
  {
    hide FormatString.Parse;
    assert xs[..i + 1][..i] == xs[..i];
    FirstErrorConcat(Concat(xs[..i]), xs[i]);
  }

  ghost function ItemLeaves(items: seq<Input>): (xs: seq<seq<string>>)
    ensures |xs| == |items| && forall i | 0 <= i < |items| :: xs[i] == Leaves(items[i])
  {
    seq(|items|, i requires 0 <= i < |items| => Leaves(items[i]))
  }

  ghost function MemberLeaves(members: seq<(string, Input)>): (xs: seq<seq<string>>)
    ensures |xs| == |members| && forall i | 0 <= i < |members| :: xs[i] == Leaves(members[i].1)
  {
    seq(|members|, i requires 0 <= i < |members| => Leaves(members[i].1))
  }

  lemma LeavesInParts(v: Input)
    ensures v.ArrayInput? ==> Leaves(v) == Concat(ItemLeaves(v.items))
    ensures v.ObjectInput? ==> Leaves(v) == Concat(MemberLeaves(v.members))
  {
    hide FirstError;
    if v.ArrayInput? {
      assert ItemLeaves(v.items) == seq(|v.items|, i requires 0 <= i < |v.items| => Leaves(v.items[i]));
    } else if v.ObjectInput? {
      assert MemberLeaves(v.members) == seq(|v.members|, i requires 0 <= i < |v.members| => Leaves(v.members[i].1));
    }
  }

  lemma NoErrorYet(xs: seq<seq<string>>)
    ensures FirstError(Concat(xs[..0])).None?
  {
  }

  /** What compiling promises: the mirror of the value, or the first error in it. */
  ghost predicate CompiledTo(v: Input, r: Result<Compiled, ParseError>) {
    if r.Ok? then Mirrors(v, r.value) && FirstError(Leaves(v)).None?
    else FirstError(Leaves(v)) == Some(r.error)
  }

  method Compile(v: Input) returns (r: Result<Compiled, ParseError>)
    requires WellFormed(v)
    ensures CompiledTo(v, r)
    decreases v, 1
  {
    match v
    case NullInput => r := Ok(CNull);
    case BoolInput(b) => r := Ok(CBool(b));
    case FormatInput(text) =>
      var parsed := FormatString.ParseFormat(text);
      r := if parsed.Ok? then Ok(CLeaf(parsed.value)) else Err(parsed.error);
      assert [text][1..] == [];
    case ArrayInput(items) => r := CompileArray(v);
    case ObjectInput(members) => r := CompileMap(v);
  }

  method CompileArray(v: Input) returns (r: Result<Compiled, ParseError>)
    requires v.ArrayInput? && WellFormed(v)
    ensures CompiledTo(v, r)
    decreases v, 0
  {
    hide Leaves;
    hide Concat;
    hide FirstError;
    ghost var xs := ItemLeaves(v.items);
    LeavesInParts(v);
    NoErrorYet(xs);
    var done: seq<Compiled> := [];
    for i := 0 to |v.items|
      invariant |done| == i && FirstError(Concat(xs[..i])).None?
      invariant forall k | 0 <= k < i :: Mirrors(v.items[k], done[k])
    {
      var item := Compile(v.items[i]);
      FirstErrorStep(xs, i);
      if item.Err? {
        FirstErrorPrefix(xs, i + 1);
        return Err(item.error);
      }
      done := done + [item.value];
    }
    assert xs[..|xs|] == xs;
    return Ok(CArray(done));
  }

  method CompileMap(v: Input) returns (r: Result<Compiled, ParseError>)
    requires v.ObjectInput? && WellFormed(v)
    ensures CompiledTo(v, r)
    decreases v, 0
  {
    hide Leaves;
    hide Concat;
    hide FirstError;
    var members := v.members;
    ghost var xs := MemberLeaves(members);
    LeavesInParts(v);
    NoErrorYet(xs);
    var done: seq<(string, Compiled)> := [];
    for i := 0 to |members|
      invariant |done| == i && FirstError(Concat(xs[..i])).None?
      invariant forall k | 0 <= k < i :: done[k].0 == members[k].0 && Mirrors(members[k].1, done[k].1)
    {
      var value := Compile(members[i].1);
      FirstErrorStep(xs, i);
      if value.Err? {
        FirstErrorPrefix(xs, i + 1);
        return Err(value.error);
      }
      InsertLast(done, members[i].0, value.value);
      done := Insert(done, members[i].0, value.value);
    }
    assert xs[..|xs|] == xs;
    return Ok(CObject(done));
  }

  // ---------------------------------------------------------------------------
  // The intended value
  // ---------------------------------------------------------------------------

  function Integer(n: int): Json { Json.Number(n, 0) }

  function TextOrNull(v: Option<string>): Json {
    if v.None? then Null else Str(v.value)
  }

  /** A leaf of one operator keeps the operator's type: a number, a string, or null. */
  ghost function IntendedOp(op: Op, r: Record): Json {
    match op
    case ResponseCode => Integer(r.responseCode)
    case BytesReceived => Integer(r.bytesReceived)
    case BytesSent => Integer(r.bytesSent)
    case Duration => Integer(AsMillis(r.duration))
    case GrpcStatus(Number) => if r.grpcStatus.None? then Null else Integer(Grpc.StatusCode(r.grpcStatus.value))
    case _ =>
      var v := Value(op, r);
      if v.None? then Null else Str(Truncated(v.value, Limit(op)))
  }

  predicate SingleOperator(segs: seq<FormatString.Segment>) {
    |segs| == 1 && segs[0].Operator?
  }

  /** The tree a line must decode to. */
  ghost function Intended(c: Compiled, r: Record, omitEmpty: bool): Json {
    match c
    case CNull => Null
    case CBool(b) => Bool(b)
    case CLeaf(segs) =>
      if SingleOperator(segs) then IntendedOp(segs[0].op, r) else Str(Render(segs, r, omitEmpty))
    case CArray(items) => Arr(seq(|items|, i requires 0 <= i < |items| => Intended(items[i], r, omitEmpty)))
    case CObject(members) =>
      Obj(seq(|members|, i requires 0 <= i < |members| => (members[i].0, Intended(members[i].1, r, omitEmpty))))
  }

  lemma {:induction false} IntendedIntegral(c: Compiled, r: Record, omitEmpty: bool)
    ensures Integral(Intended(c, r, omitEmpty))
  {
    match c
    case CNull =>
    case CBool(b) =>
    case CLeaf(segs) =>
    case CArray(items) =>
      forall i | 0 <= i < |items| ensures Integral(Intended(items[i], r, omitEmpty)) {
        IntendedIntegral(items[i], r, omitEmpty);
      }
    case CObject(members) =>
      forall i | 0 <= i < |members| ensures Integral(Intended(members[i].1, r, omitEmpty)) {
        IntendedIntegral(members[i].1, r, omitEmpty);
      }
  }

  /** The text of a value, before any newline. */
  ghost function Text(c: Compiled, r: Record, omitEmpty: bool): string {
    IntendedIntegral(c, r, omitEmpty);
    Encode(Intended(c, r, omitEmpty))
  }

  // ---------------------------------------------------------------------------
  // Rendering
  // ---------------------------------------------------------------------------

  method EscapeInto(out: string, s: string) returns (res: string)
    ensures res == out + Escape(s)
  {
    res := out;
    for i := 0 to |s|
      invariant out + Escape(s) == res + Escape(s[i..])
    {
      assert s[i..][1..] == s[i + 1..];
      Associate(res, EscapeChar(s[i]), Escape(s[i + 1..]));
      res := res + EscapeChar(s[i]);
    }
    assert s[|s|..] == [] && res + "" == res;
  }

  method QuoteInto(out: string, s: string) returns (res: string)
    ensures res == out + Quote(s)
  {
    res := EscapeInto(out + "\"", s);
    Associate(out, "\"", Escape(s));
    Associate(out, "\"" + Escape(s), "\"");
    res := res + "\"";
  }

  method QuoteOpt(out: string, v: Option<string>) returns (res: string)
    ensures res == out + Encode(TextOrNull(v))
  {
    if v.Some? {
      res := QuoteInto(out, v.value);
    } else {
      res := out + "null";
    }
  }

  method NumberOpt(out: string, v: Option<int>) returns (res: string)
    ensures res == out + Encode(if v.None? then Null else Integer(v.value))
  {
    res := out + if v.Some? then Decimal.IntText(v.value) else "null";
  }

  method EncodeSingleOp(out: string, op: Op, r: Record) returns (res: string)
    ensures res == out + Encode(IntendedOp(op, r))
  {
    match op
    case ResponseCode => res := out + Decimal.Text(r.responseCode);
    case BytesReceived => res := out + Decimal.Text(r.bytesReceived);
    case BytesSent => res := out + Decimal.Text(r.bytesSent);
    case Duration => res := out + Decimal.Text(AsMillis(r.duration));
    case Protocol => res := QuoteInto(out, r.protocol);
    case ResponseFlags => res := QuoteInto(out, r.responseFlags);
    case StartTime =>
      var stamp := Calendar.FormatIso8601(r.startTime);
      res := QuoteInto(out, stamp);
    case UpstreamHost => res := QuoteOpt(out, r.upstreamHost);
    case UpstreamCluster => res := QuoteOpt(out, r.upstreamCluster);
    case RouteName => res := QuoteOpt(out, r.routeName);
    case ResponseCodeDetails => res := QuoteOpt(out, r.responseCodeDetails);
    case DynamicMetadata(ns, key) => res := QuoteOpt(out, Metadata(r, ns, key));
    case GrpcStatus(f) =>
      var raw := r.grpcStatus;
      if f.Number? {
        res := NumberOpt(out, if raw.None? then None else Some(Grpc.StatusCode(raw.value)));
      } else {
        res := QuoteOpt(out, if raw.None? then None else Some(Grpc.RenderStatus(raw.value, f)));
      }
    case Req(name, alt, truncate) =>
      var v := ResolveHeader(ReqSide, name, alt, r);
      res := QuoteOpt(out, if v.None? then None else Some(Truncated(v.value, truncate)));
    case Resp(name, alt, truncate) =>
      var v := ResolveHeader(RespSide, name, alt, r);
      res := QuoteOpt(out, if v.None? then None else Some(Truncated(v.value, truncate)));
  }

  method EncodeJsonValue(out: string, segs: seq<FormatString.Segment>, r: Record, omitEmpty: bool) returns (res: string)
    ensures res == out + Text(CLeaf(segs), r, omitEmpty)
  {
    if SingleOperator(segs) {
      res := EncodeSingleOp(out, segs[0].op, r);
    } else {
      var s := RenderSegments(segs, r, omitEmpty);
      res := QuoteInto(out, s);
    }
  }

  lemma {:induction false} CommasSnoc(texts: seq<string>, i: nat)
    requires i < |texts|
    ensures Commas(texts[..i + 1]) == if i == 0 then texts[0] else Commas(texts[..i]) + "," + texts[i]
  {
    var shorter, longer := texts[..i], texts[..i + 1];
    if i > 0 {
      CommasSnoc(texts[1..], i - 1);
      assert longer[1..] == texts[1..][..i] && shorter[1..] == texts[1..][..i - 1];
      assert texts[1..][i - 1] == texts[i];
      if i == 1 {
        assert longer[1..] == [texts[1]] && shorter == [texts[0]];
      } else {
        Commas3(texts[0], Commas(shorter[1..]), texts[i]);
      }
    }
  }

  lemma Commas3(x: string, y: string, z: string)
    ensures x + "," + (y + "," + z) == x + "," + y + "," + z
  {
    Associate(x + ",", y + ",", z);
    Associate(x + ",", y, ",");
  }

  /** The items of an array, rendered. */
  ghost function ItemTexts(items: seq<Compiled>, r: Record, omitEmpty: bool): (texts: seq<string>)
    ensures |texts| == |items| && forall i | 0 <= i < |items| :: texts[i] == Text(items[i], r, omitEmpty)
  {
    seq(|items|, i requires 0 <= i < |items| => Text(items[i], r, omitEmpty))
  }

  ghost function MemberTexts(members: seq<(string, Compiled)>, r: Record, omitEmpty: bool): (texts: seq<string>)
    ensures |texts| == |members|
    ensures forall i | 0 <= i < |members| :: texts[i] == Quote(members[i].0) + ":" + Text(members[i].1, r, omitEmpty)
  {
    seq(|members|, i requires 0 <= i < |members| => Quote(members[i].0) + ":" + Text(members[i].1, r, omitEmpty))
  }

  lemma ArrayText(c: Compiled, r: Record, omitEmpty: bool)
    requires c.CArray?
    ensures Text(c, r, omitEmpty) == "[" + Commas(ItemTexts(c.items, r, omitEmpty)) + "]"
  {
    var j := Intended(c, r, omitEmpty);
    IntendedIntegral(c, r, omitEmpty);
    assert seq(|j.items|, i requires 0 <= i < |j.items| => Encode(j.items[i])) == ItemTexts(c.items, r, omitEmpty);
  }

  lemma ObjectText(c: Compiled, r: Record, omitEmpty: bool)
    requires c.CObject?
    ensures Text(c, r, omitEmpty) == "{" + Commas(MemberTexts(c.members, r, omitEmpty)) + "}"
  {
    var j := Intended(c, r, omitEmpty);
    IntendedIntegral(c, r, omitEmpty);
    assert seq(|j.members|, i requires 0 <= i < |j.members| => Quote(j.members[i].0) + ":" + Encode(j.members[i].1))
        == MemberTexts(c.members, r, omitEmpty);
  }

  /** A list under construction: the opening, the texts so far, and a comma if more follow. */
  lemma ListStep(base: string, texts: seq<string>, i: nat)
    requires i < |texts|
    ensures base + Commas(texts[..i + 1])
         == (if i > 0 then base + Commas(texts[..i]) + "," else base + Commas(texts[..i])) + texts[i]
  {
    CommasSnoc(texts, i);
    if i > 0 {
      var c := Commas(texts[..i]);
      Associate(base, c + ",", texts[i]);
      Associate(base, c, ",");
    }
  }

  lemma ListEnd(out: string, open: string, texts: seq<string>, close: string)
    ensures out + open + Commas(texts[..|texts|]) + close == out + (open + Commas(texts) + close)
  {
    assert texts[..|texts|] == texts;
    Associate(out, open, Commas(texts));
    Associate(out, open + Commas(texts), close);
  }

  method RenderInto(out: string, c: Compiled, r: Record, omitEmpty: bool) returns (res: string)
    ensures res == out + Text(c, r, omitEmpty)
    decreases c, 1
  {
    match c
    case CNull => res := out + "null";
    case CBool(b) => res := out + if b then "true" else "false";
    case CLeaf(segs) => res := EncodeJsonValue(out, segs, r, omitEmpty);
    case CArray(items) => res := RenderArrayInto(out, c, r, omitEmpty);
    case CObject(members) => res := RenderObjectInto(out, c, r, omitEmpty);
  }

  method RenderArrayInto(out: string, c: Compiled, r: Record, omitEmpty: bool) returns (res: string)
    requires c.CArray?
    ensures res == out + Text(c, r, omitEmpty)
    decreases c, 0
  {
    ghost var texts := ItemTexts(c.items, r, omitEmpty);
    res := out + "[";
    ghost var base := res;
    assert base == base + Commas(texts[..0]);
    for i := 0 to |c.items|
      invariant res == base + Commas(texts[..i])
    {
      ListStep(base, texts, i);
      if i > 0 {
        res := res + ",";
      }
      res := RenderInto(res, c.items[i], r, omitEmpty);
    }
    ListEnd(out, "[", texts, "]");
    ArrayText(c, r, omitEmpty);
    res := res + "]";
  }

  method RenderObjectInto(out: string, c: Compiled, r: Record, omitEmpty: bool) returns (res: string)
    requires c.CObject?
    ensures res == out + Text(c, r, omitEmpty)
    decreases c, 0
  {
    ghost var texts := MemberTexts(c.members, r, omitEmpty);
    res := out + "{";
    ghost var base := res;
    assert base == base + Commas(texts[..0]);
    for i := 0 to |c.members|
      invariant res == base + Commas(texts[..i])
    {
      ListStep(base, texts, i);
      if i > 0 {
        res := res + ",";
      }
      ghost var start := res;
      res := QuoteInto(res, c.members[i].0);
      res := res + ":";
      MemberGrouping(start, Quote(c.members[i].0), Text(c.members[i].1, r, omitEmpty));
      res := RenderInto(res, c.members[i].1, r, omitEmpty);
    }
    ListEnd(out, "{", texts, "}");
    ObjectText(c, r, omitEmpty);
    res := res + "}";
  }

  lemma MemberGrouping(start: string, key: string, text: string)
    ensures start + key + ":" + text == start + (key + ":" + text)
  {
    Associate(start, key, ":");
    Associate(start, key + ":", text);
  }

  // ---------------------------------------------------------------------------
  // A line
  // ---------------------------------------------------------------------------

  /** One object and one newline. */
  method RenderLine(members: seq<(string, Compiled)>, r: Record, omitEmpty: bool) returns (line: string)
    ensures Decode(line) == Some(Intended(CObject(members), r, omitEmpty))
    ensures line != [] && line[|line| - 1] == '\n' && '\n' !in line[..|line| - 1]
    ensures line == Text(CObject(members), r, omitEmpty) + "\n"
  {
    var c := CObject(members);
    var body := RenderObjectInto("", c, r, omitEmpty);
    assert "" + Text(c, r, omitEmpty) == Text(c, r, omitEmpty);
    line := body + "\n";
    LineDecodes(c, r, omitEmpty);
    assert line[..|line| - 1] == body;
  }

  /** Every compiled value, on a line of its own, decodes to exactly the intended tree, and
      the only raw newline in the line is its last character. */
  lemma LineDecodes(c: Compiled, r: Record, omitEmpty: bool)
    ensures Decode(Text(c, r, omitEmpty) + "\n") == Some(Intended(c, r, omitEmpty))
    ensures '\n' !in Text(c, r, omitEmpty)
  {
    IntendedIntegral(c, r, omitEmpty);
    RoundTrip(Intended(c, r, omitEmpty));
    EncodeNoNewline(Intended(c, r, omitEmpty));
  }

  lemma LeafSorted(segs: seq<FormatString.Segment>, r: Record, omitEmpty: bool)
    ensures SortedKeys(Intended(CLeaf(segs), r, omitEmpty))
  {
  }

  lemma ArraySorted(items: seq<Compiled>, r: Record, omitEmpty: bool)
    requires forall i | 0 <= i < |items| :: SortedKeys(Intended(items[i], r, omitEmpty))
    ensures SortedKeys(Intended(CArray(items), r, omitEmpty))
  {
  }

  lemma ObjectSorted(members: seq<(string, Compiled)>, r: Record, omitEmpty: bool)
    requires Ascending(members)
    requires forall i | 0 <= i < |members| :: SortedKeys(Intended(members[i].1, r, omitEmpty))
    ensures SortedKeys(Intended(CObject(members), r, omitEmpty))
  {
  }

  /** Compiling a well-formed configuration gives, for every record, a tree whose objects
      have their keys in ascending order. */
  lemma {:induction false} KeysStaySorted(v: Input, c: Compiled, r: Record, omitEmpty: bool)
    requires WellFormed(v) && Mirrors(v, c)
    ensures SortedKeys(Intended(c, r, omitEmpty))
  {
    match v
    case NullInput =>
    case BoolInput(b) =>
    case FormatInput(text) => LeafSorted(c.segments, r, omitEmpty);
    case ArrayInput(items) =>
      forall i | 0 <= i < |items| ensures SortedKeys(Intended(c.items[i], r, omitEmpty)) {
        KeysStaySorted(items[i], c.items[i], r, omitEmpty);
      }
      ArraySorted(c.items, r, omitEmpty);
    case ObjectInput(members) =>
      forall i | 0 <= i < |members| ensures SortedKeys(Intended(c.members[i].1, r, omitEmpty)) {
        KeysStaySorted(members[i].1, c.members[i].1, r, omitEmpty);
      }
      ObjectSorted(c.members, r, omitEmpty);
  }

  /** A leaf of one operator has the operator's typed value; every other leaf, empty, literal
      or mixed, is the string its whole format renders to. */
  lemma LeafMeans(segs: seq<FormatString.Segment>, r: Record, omitEmpty: bool)
    ensures |segs| == 1 && segs[0].Operator? ==> Intended(CLeaf(segs), r, omitEmpty) == IntendedOp(segs[0].op, r)
    ensures |segs| != 1 || segs[0].Literal? ==> Intended(CLeaf(segs), r, omitEmpty) == Str(Render(segs, r, omitEmpty))
  {
    hide IntendedOp;
    hide Render;
  }

  /** From the configured text: a format string decodes to an operator's typed value exactly
      when it is one body between two percent signs, and otherwise to the string that the
      text format of the same configuration prints. */
  lemma FormatDecodes(text: string, segs: seq<FormatString.Segment>, r: Record, omitEmpty: bool)
    requires FormatString.Parse(text) == Ok(segs)
    ensures forall op, body | body != [] && '%' !in body && text == "%" + body + "%" && ParseOperator(body) == Ok(op) ::
      Decode(Text(CLeaf(segs), r, omitEmpty) + "\n") == Some(IntendedOp(op, r))
    ensures (forall body :: body != [] && '%' !in body ==> text != "%" + body + "%") ==>
      Decode(Text(CLeaf(segs), r, omitEmpty) + "\n") == Some(Str(Render(segs, r, omitEmpty)))
  {
    hide FormatString.Parse;
    hide ParseOperator;
    hide IntendedOp;
    hide Render;
    hide Decode;
    LineDecodes(CLeaf(segs), r, omitEmpty);
    hide Text;
    LeafMeans(segs, r, omitEmpty);
    hide Intended;
    forall op, body | body != [] && '%' !in body && text == "%" + body + "%" && ParseOperator(body) == Ok(op)
      ensures Decode(Text(CLeaf(segs), r, omitEmpty) + "\n") == Some(IntendedOp(op, r))
    {
      FormatString.OneOperatorIff(text, op);
    }
    if |segs| == 1 && segs[0].Operator? {
      FormatString.OneOperatorIff(text, segs[0].op);
      assert segs == [FormatString.Operator(segs[0].op)];
    }
  }

  /** Which operators are numbers, and which number. */
  lemma NumbersAre(op: Op, r: Record)
    ensures IntendedOp(op, r).Number? <==>
      || op.ResponseCode? || op.BytesReceived? || op.BytesSent? || op.Duration?
      || (op == GrpcStatus(GrpcFormat.Number) && r.grpcStatus.Some?)
    ensures op.ResponseCode? ==> IntendedOp(op, r) == Json.Number(r.responseCode, 0)
    ensures op.BytesReceived? ==> IntendedOp(op, r) == Json.Number(r.bytesReceived, 0)
    ensures op.BytesSent? ==> IntendedOp(op, r) == Json.Number(r.bytesSent, 0)
    ensures op.Duration? ==> IntendedOp(op, r) == Json.Number(r.duration / 1_000_000, 0)
    ensures op == GrpcStatus(GrpcFormat.Number) && r.grpcStatus.Some? ==>
      IntendedOp(op, r) == Json.Number(Grpc.StatusCode(r.grpcStatus.value), 0)
  {
    hide Value;
    hide Grpc.StatusCode;
  }

  /** The tree of a configured value: null and booleans as they are, arrays item by item and
      objects member by member, in the configured order and under the configured keys. */
  lemma TreeFollowsConfig(v: Input, c: Compiled, r: Record, omitEmpty: bool)
    requires Mirrors(v, c)
    ensures v.NullInput? ==> Intended(c, r, omitEmpty) == Null
    ensures v.BoolInput? ==> Intended(c, r, omitEmpty) == Bool(v.b)
    ensures v.FormatInput? ==> c.CLeaf? && FormatString.Parse(v.text) == Ok(c.segments)
    ensures v.ArrayInput? ==>
      var j := Intended(c, r, omitEmpty);
      && c.CArray? && j.Arr? && |c.items| == |j.items| == |v.items|
      && forall i | 0 <= i < |v.items| ::
           Mirrors(v.items[i], c.items[i]) && j.items[i] == Intended(c.items[i], r, omitEmpty)
    ensures v.ObjectInput? ==>
      var j := Intended(c, r, omitEmpty);
      && c.CObject? && j.Obj? && |c.members| == |j.members| == |v.members|
      && forall i | 0 <= i < |v.members| ::
           && Mirrors(v.members[i].1, c.members[i].1)
           && j.members[i] == (v.members[i].0, Intended(c.members[i].1, r, omitEmpty))
  {
    hide FormatString.Parse;
    hide IntendedOp;
    hide Render;
  }

  /** A present operator has the same text in a JSON leaf as in a text format: as a string it
      is that text, as a number it is the number the text spells. */
  lemma LeafAgreesWithText(op: Op, r: Record, omitEmpty: bool)
    ensures var j := IntendedOp(op, r);
      || Value(op, r).None?
      || j == Str(OpText(op, r, omitEmpty))
      || (j.Number? && j.exponent == 0 && Decimal.IntText(j.mantissa) == OpText(op, r, omitEmpty))
  {
  }

  /** An absent single operator is null, whatever the text format would print for it. */
  lemma AbsentIsNull(op: Op, r: Record)
    ensures IntendedOp(op, r) == Null <==> Value(op, r).None?
  {
  }
}
