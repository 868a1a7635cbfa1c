/** Format strings: literals, `%%` escapes and operators; parsing, printing and the laws
    that connect them. */
module FormatString {
  import opened Common
  import opened CommandOperator

  datatype Segment = Literal(text: string) | Operator(op: Op)

  // ---------------------------------------------------------------------------
  // What a format string means
  // ---------------------------------------------------------------------------

  /** Put literal text in front, merging it with a literal that is already there. */
  function Prepend(l: string, segs: seq<Segment>): seq<Segment> {
    if l == [] then segs
    else if segs != [] && segs[0].Literal? then [Literal(l + segs[0].text)] + segs[1..]
    else [Literal(l)] + segs
  }

  function PrependTo(l: string, r: Result<seq<Segment>, ParseError>): Result<seq<Segment>, ParseError> {
    if r.Err? then r else Ok(Prepend(l, r.value))
  }

  function Then(op: Result<Op, ParseError>, rest: Result<seq<Segment>, ParseError>): Result<seq<Segment>, ParseError> {
    if op.Err? then Err(op.error)
    else if rest.Err? then rest
    else Ok([Operator(op.value)] + rest.value)
  }

  /** The segments of a format string, or the error of its first bad operator. */
  function Parse(s: string): Result<seq<Segment>, ParseError>
    decreases |s|
  {
    if s == [] then Ok([])
    else if s[0] != '%' then PrependTo(s[..1], Parse(s[1..]))
    else if |s| > 1 && s[1] == '%' then PrependTo("%", Parse(s[2..]))
    else
      match IndexOf(s[1..], '%')
      case None => Err(UnterminatedOperator)
      case Some(j) =>
        Then(ParseOperator(s[1..j + 1]), Parse(s[j + 2..]))
  }

  lemma PrependTwice(a: string, b: string, segs: seq<Segment>)
    ensures Prepend(a, Prepend(b, segs)) == Prepend(a + b, segs)
  {
    if a == [] {
      assert a + b == b;
    } else if b == [] {
      assert a + b == a;
    } else if segs != [] && segs[0].Literal? {
      assert a + (b + segs[0].text) == a + b + segs[0].text;
    }
  }

  /** A run without percent signs is literal text. */
  lemma {:induction false} ParseRun(run: string, rest: string)
    requires '%' !in run
    ensures Parse(run + rest) == PrependTo(run, Parse(rest))
  {
    if run == [] {
      assert run + rest == rest;
    } else {
      var s := run + rest;
      assert s[1..] == run[1..] + rest && s[..1] == run[..1] && s[0] == run[0];
      ParseRun(run[1..], rest);
      if Parse(rest).Ok? {
        PrependTwice(run[..1], run[1..], Parse(rest).value);
        assert run[..1] + run[1..] == run;
      }
    }
  }

  // ---------------------------------------------------------------------------
  // The loop
  // ---------------------------------------------------------------------------

  /** Segments already emitted and literal text already collected, in front of the rest. */
  ghost function Glue(segs: seq<Segment>, l: string, r: Result<seq<Segment>, ParseError>): Result<seq<Segment>, ParseError> {
    if r.Err? then r else Ok(segs + Prepend(l, r.value))
  }

  lemma GluePrepend(segs: seq<Segment>, l: string, more: string, r: Result<seq<Segment>, ParseError>)
    ensures Glue(segs, l, PrependTo(more, r)) == Glue(segs, l + more, r)
  {
    if r.Ok? {
      PrependTwice(l, more, r.value);
    }
  }

  lemma StartGlue(s: string)
    ensures Glue([], "", Parse(s[0..])) == Parse(s)
  {
    assert s[0..] == s;
    if Parse(s).Ok? {
      assert [] + Parse(s).value == Parse(s).value;
    }
  }

  lemma EndGlue(segs: seq<Segment>, l: string)
    ensures Glue(segs, l, Parse([])) == Ok(if l == [] then segs else segs + [Literal(l)])
  {
    assert segs + [] == segs && [Literal(l)] + [] == [Literal(l)];
  }

  /** What the loop does with a run of ordinary characters, and with an escape. */
  lemma RunStep(s: string, i: nat, j: nat, segs: seq<Segment>, l: string)
    requires i <= j <= |s| && '%' !in s[i..j]
    ensures Glue(segs, l, Parse(s[i..])) == Glue(segs, l + s[i..j], Parse(s[j..]))
  {
    assert s[i..] == s[i..j] + s[j..];
    ParseRun(s[i..j], s[j..]);
    GluePrepend(segs, l, s[i..j], Parse(s[j..]));
  }

  lemma EscapeStep(s: string, i: nat, segs: seq<Segment>, l: string)
    requires i + 1 < |s| && s[i] == s[i + 1] == '%'
    ensures Glue(segs, l, Parse(s[i..])) == Glue(segs, l + "%", Parse(s[i + 2..]))
  {
    assert s[i..][2..] == s[i + 2..];
    GluePrepend(segs, l, "%", Parse(s[i + 2..]));
  }

  method ParseFormat(s: string) returns (r: Result<seq<Segment>, ParseError>)
    ensures r == Parse(s)
  {
    hide Parse;
    hide ParseOperator;
    var segments: seq<Segment> := [];
    var literal := "";
    var i := 0;
    StartGlue(s);
    while i < |s|
      invariant 0 <= i <= |s|
      invariant Parse(s) == Glue(segments, literal, Parse(s[i..]))
    {
      if s[i] != '%' {
        var end := NextPercent(s, i);
        RunStep(s, i, end, segments, literal);
        literal := literal + s[i..end];
        i := end;
        continue;
      }
      if i + 1 < |s| && s[i + 1] == '%' {
        EscapeStep(s, i, segments, literal);
        literal := literal + "%";
        i := i + 2;
        continue;
      }
      var j := NextPercent(s, i + 1);
      CloseFound(s, i, j);
      if j == |s| {
        return Err(UnterminatedOperator);
      }
      var parsed := ParseOperator(s[i + 1..j]);
      if parsed.Err? {
        return Err(parsed.error);
      }
      OperatorStep(parsed.value, Parse(s[j + 1..]), segments, literal);
      if literal != [] {
        segments := segments + [Literal(literal)];
        literal := "";
      }
      segments := segments + [Operator(parsed.value)];
      i := j + 1;
    }
    EndGlue(segments, literal);
    assert s[i..] == [];
    if literal != [] {
      segments := segments + [Literal(literal)];
    }
    return Ok(segments);
  }

  /** The position of the first percent sign from `i` on, or the end. */
  method NextPercent(s: string, i: nat) returns (j: nat)
    requires i <= |s|
    ensures i <= j <= |s| && '%' !in s[i..j] && (j < |s| ==> s[j] == '%')
  {
    j := i;
    while j < |s| && s[j] != '%'
      invariant i <= j <= |s| && '%' !in s[i..j]
    {
      j := j + 1;
    }
  }

  lemma CloseFound(s: string, i: nat, j: nat)
    requires i < |s| && s[i] == '%' && !(i + 1 < |s| && s[i + 1] == '%')
    requires i < j <= |s| && '%' !in s[i + 1..j] && (j < |s| ==> s[j] == '%')
    ensures Parse(s[i..]) ==
      if j == |s| then Err(UnterminatedOperator) else Then(ParseOperator(s[i + 1..j]), Parse(s[j + 1..]))
  {
    hide ParseOperator;
    var t := s[i..];
    assert t[0] == '%' && t[1..] == s[i + 1..];
    if j == |s| {
      assert s[i + 1..j] == t[1..];
    } else {
      assert t[1..] == s[i + 1..j] + ['%'] + s[j + 1..];
      IndexOfSplit(s[i + 1..j], '%', s[j + 1..]);
      assert t[1..j - i] == s[i + 1..j] && t[j - i + 1..] == s[j + 1..];
    }
  }

  lemma OperatorStep(op: Op, rest: Result<seq<Segment>, ParseError>, segs: seq<Segment>, l: string)
    ensures Glue(segs, l, Then(Ok(op), rest)) ==
      Glue((if l == [] then segs else segs + [Literal(l)]) + [Operator(op)], "", rest)
  {
    if rest.Ok? {
      assert segs + Prepend(l, [Operator(op)] + rest.value)
          == (if l == [] then segs else segs + [Literal(l)]) + [Operator(op)] + rest.value;
    }
  }

  // ---------------------------------------------------------------------------
  // Shape of the result
  // ---------------------------------------------------------------------------

  /** No empty literal, no two literals in a row. */
  predicate Coalesced(segs: seq<Segment>) {
    && (forall i | 0 <= i < |segs| && segs[i].Literal? :: segs[i].text != [])
    && (forall i | 0 <= i < |segs| - 1 && segs[i].Literal? :: segs[i + 1].Operator?)
  }

  predicate AllCanonical(segs: seq<Segment>) {
    forall i | 0 <= i < |segs| && segs[i].Operator? :: Canonical(segs[i].op)
  }

  lemma PrependShape(l: string, segs: seq<Segment>)
    requires Coalesced(segs) && AllCanonical(segs)
    ensures Coalesced(Prepend(l, segs)) && AllCanonical(Prepend(l, segs))
  {
    var r := Prepend(l, segs);
    if l != [] {
      if segs != [] && segs[0].Literal? {
        assert forall i | 1 <= i < |r| :: r[i] == segs[i];
      } else {
        assert forall i | 1 <= i < |r| :: r[i] == segs[i - 1];
      }
    }
  }

  lemma ConsShape(op: Op, segs: seq<Segment>)
    requires Coalesced(segs) && AllCanonical(segs) && Canonical(op)
    ensures Coalesced([Operator(op)] + segs) && AllCanonical([Operator(op)] + segs)
  {
    var r := [Operator(op)] + segs;
    assert forall i | 1 <= i < |r| :: r[i] == segs[i - 1];
  }

  /** Whatever the parser returns is coalesced and holds canonical operators only. */
  lemma {:induction false} ParseShape(s: string)
    ensures Parse(s).Ok? ==> Coalesced(Parse(s).value) && AllCanonical(Parse(s).value)
    decreases |s|
  {
    hide ParseOperator;
    if Parse(s).Ok? && s != [] {
      if s[0] != '%' {
        ParseShape(s[1..]);
        PrependShape(s[..1], Parse(s[1..]).value);
      } else if |s| > 1 && s[1] == '%' {
        ParseShape(s[2..]);
        PrependShape("%", Parse(s[2..]).value);
      } else {
        var j := IndexOf(s[1..], '%').value;
        assert s[1..][..j] == s[1..j + 1];
        ParsedIsCanonical(s[1..j + 1]);
        ParseShape(s[j + 2..]);
        ConsShape(ParseOperator(s[1..j + 1]).value, Parse(s[j + 2..]).value);
      }
    }
  }

  // ---------------------------------------------------------------------------
  // Concatenation
  // ---------------------------------------------------------------------------

  function Attach(x: Segment, segs: seq<Segment>): seq<Segment> {
    if x.Literal? then Prepend(x.text, segs) else [x] + segs
  }

  /** Two lists one after the other, merging literals that meet. */
  function Join(a: seq<Segment>, b: seq<Segment>): seq<Segment> {
    if a == [] then b else Attach(a[0], Join(a[1..], b))
  }

  lemma JoinPrepend(l: string, a: seq<Segment>, b: seq<Segment>)
    ensures Join(Prepend(l, a), b) == Prepend(l, Join(a, b))
  {
    if l != [] {
      var p := Prepend(l, a);
      if a != [] && a[0].Literal? {
        assert p[1..] == a[1..];
        PrependTwice(l, a[0].text, Join(a[1..], b));
      } else {
        assert p[1..] == a;
      }
    }
  }

  lemma {:induction false} JoinOfCoalesced(a: seq<Segment>, b: seq<Segment>)
    requires Coalesced(a)
    ensures b == [] || a == [] || a[|a| - 1].Operator? || b[0].Operator? ==> Join(a, b) == a + b
    ensures a != [] && b != [] && a[|a| - 1].Literal? && b[0].Literal? ==>
      Join(a, b) == a[..|a| - 1] + [Literal(a[|a| - 1].text + b[0].text)] + b[1..]
  {
    if a == [] {
      assert a + b == b;
    } else if |a| == 1 {
      assert a[1..] == [] && a == [a[0]];
    } else {
      JoinOfCoalesced(a[1..], b);
      assert a[1..][|a| - 2] == a[|a| - 1];
      assert a == [a[0]] + a[1..];
    }
  }

  /** Parsing distributes over concatenation: once the first part parses, the whole parses to
      the coalesced concatenation, or fails exactly as the second part does. */
  lemma {:induction false} ParseConcat(s: string, t: string)
    requires Parse(s).Ok?
    ensures Parse(s + t) == if Parse(t).Err? then Parse(t) else Ok(Join(Parse(s).value, Parse(t).value))
    decreases |s|
  {
    hide ParseOperator;
    if s == [] {
      assert s + t == t;
    } else if s[0] != '%' {
      assert (s + t)[1..] == s[1..] + t && (s + t)[..1] == s[..1];
      ParseConcat(s[1..], t);
      if Parse(t).Ok? {
        JoinPrepend(s[..1], Parse(s[1..]).value, Parse(t).value);
      }
    } else if |s| > 1 && s[1] == '%' {
      assert (s + t)[2..] == s[2..] + t && (s + t)[1] == s[1];
      ParseConcat(s[2..], t);
      if Parse(t).Ok? {
        JoinPrepend("%", Parse(s[2..]).value, Parse(t).value);
      }
    } else {
      var j := IndexOf(s[1..], '%').value;
      ConcatOperator(s, t, j);
      ParseConcat(s[j + 2..], t);
      if Parse(t).Ok? {
        var a := Parse(s).value;
        assert a[1..] == Parse(s[j + 2..]).value;
      }
    }
  }

  lemma ConcatOperator(s: string, t: string, j: nat)
    requires |s| > 1 && s[0] == '%' && s[1] != '%' && IndexOf(s[1..], '%') == Some(j)
    ensures |s + t| > 1 && (s + t)[1] != '%' && IndexOf((s + t)[1..], '%') == Some(j)
    ensures (s + t)[1..j + 1] == s[1..j + 1] && (s + t)[j + 2..] == s[j + 2..] + t
  {
    var body := s[1..][..j];
    assert s[1..] == body + ['%'] + s[j + 2..];
    assert (s + t)[1..] == body + ['%'] + (s[j + 2..] + t);
    IndexOfSplit(body, '%', s[j + 2..] + t);
  }

  // ---------------------------------------------------------------------------
  // Escaping and printing
  // ---------------------------------------------------------------------------

  /** The text with every percent sign doubled. */
  function Escape(text: string): string {
    if text == [] then "" else (if text[0] == '%' then "%%" else text[..1]) + Escape(text[1..])
  }

  /** Escaped text parses to the text itself. */
  lemma {:induction false} EscapeRoundTrip(text: string)
    ensures Parse(Escape(text)) == Ok(Prepend(text, []))
  {
    if text != [] {
      EscapeRoundTrip(text[1..]);
      var rest := Escape(text[1..]);
      assert text[..1] + text[1..] == text;
      PrependTwice(text[..1], text[1..], []);
      if text[0] == '%' {
        assert ("%%" + rest)[2..] == rest && text[..1] == "%";
      } else {
        assert (text[..1] + rest)[1..] == rest && (text[..1] + rest)[..1] == text[..1];
      }
    }
  }

  function PrintSegment(x: Segment): string {
    match x
    case Literal(text) => Escape(text)
    case Operator(op) => "%" + PrintBody(op) + "%"
  }

  function Print(segs: seq<Segment>): string {
    if segs == [] then "" else PrintSegment(segs[0]) + Print(segs[1..])
  }

  lemma SegmentRoundTrip(x: Segment)
    requires x.Literal? ==> x.text != []
    requires x.Operator? ==> Canonical(x.op)
    ensures Parse(PrintSegment(x)) == Ok([x])
  {
    match x
    case Literal(text) =>
      EscapeRoundTrip(text);
      assert [x] + [] == [x];
    case Operator(op) =>
      OperatorRoundTrip(op);
      WrappedOperator(op, PrintBody(op));
  }

  lemma WrappedOperator(op: Op, body: string)
    requires ParseOperator(body) == Ok(op) && '%' !in body && body != []
    ensures Parse("%" + body + "%") == Ok([Operator(op)])
  {
    hide ParseOperator;
    var s := "%" + body + "%";
    var j := |body| + 1;
    assert body[0] in body;
    assert s[0] == '%' && s[1] == body[0] && s[j] == '%' && |s| == j + 1;
    assert s[1..j] == body && s[0..] == s && s[j + 1..] == [];
    CloseFound(s, 0, j);
    assert [Operator(op)] + [] == [Operator(op)];
  }

  /** Printing any coalesced list of canonical segments and parsing it gives it back. */
  lemma {:induction false} PrintRoundTrip(segs: seq<Segment>)
    requires Coalesced(segs) && AllCanonical(segs)
    ensures Parse(Print(segs)) == Ok(segs)
  {
    if segs != [] {
      var x, tail := segs[0], segs[1..];
      TailShape(segs);
      SegmentRoundTrip(x);
      PrintRoundTrip(tail);
      ParseConcat(PrintSegment(x), Print(tail));
      JoinOne(x, tail);
      assert segs == [x] + tail;
    }
  }

  lemma TailShape(segs: seq<Segment>)
    requires segs != [] && Coalesced(segs) && AllCanonical(segs)
    ensures Coalesced(segs[1..]) && AllCanonical(segs[1..])
    ensures Attach(segs[0], segs[1..]) == segs
  {
    var tail := segs[1..];
    assert forall i | 0 <= i < |tail| :: tail[i] == segs[i + 1];
    assert segs == [segs[0]] + tail;
  }

  lemma JoinOne(x: Segment, tail: seq<Segment>)
    ensures Join([x], tail) == Attach(x, tail)
  {
    assert [x][1..] == [];
  }

  /** Parsing, printing and parsing again changes nothing. */
  lemma ParsePrintParse(s: string)
    requires Parse(s).Ok?
    ensures Parse(Print(Parse(s).value)) == Parse(s)
  {
    ParseShape(s);
    PrintRoundTrip(Parse(s).value);
  }

  // ---------------------------------------------------------------------------
  // Single operators and errors
  // ---------------------------------------------------------------------------

  lemma NothingIffEmpty(s: string)
    ensures Parse(s) == Ok([]) <==> s == []
  {
    hide ParseOperator;
  }

  /** A format string is one operator exactly when it is that operator's body between two
      percent signs. */
  lemma OneOperatorIff(s: string, op: Op)
    ensures Parse(s) == Ok([Operator(op)]) <==>
      exists body :: body != [] && '%' !in body && s == "%" + body + "%" && ParseOperator(body) == Ok(op)
  {
    hide ParseOperator;
    if Parse(s) == Ok([Operator(op)]) {
      var j := OpensWithOperator(s);
      var body := s[1..j + 1];
      assert body == s[1..][..j];
      NothingIffEmpty(s[j + 2..]);
      OnlyOperator(op, ParseOperator(body), Parse(s[j + 2..]));
      assert s == "%" + body + "%";
    }
    if exists body :: body != [] && '%' !in body && s == "%" + body + "%" && ParseOperator(body) == Ok(op) {
      var body :| body != [] && '%' !in body && s == "%" + body + "%" && ParseOperator(body) == Ok(op);
      WrappedOperator(op, body);
    }
  }

  lemma LiteralFirst(l: string, segs: seq<Segment>)
    requires l != []
    ensures Prepend(l, segs) != [] && Prepend(l, segs)[0].Literal?
  {
  }

  /** A list that starts with an operator comes from a string that starts with one. */
  lemma OpensWithOperator(s: string) returns (j: nat)
    requires Parse(s).Ok? && Parse(s).value != [] && Parse(s).value[0].Operator?
    ensures |s| > 1 && s[0] == '%' && s[1] != '%' && IndexOf(s[1..], '%') == Some(j) && j > 0
    ensures Parse(s) == Then(ParseOperator(s[1..j + 1]), Parse(s[j + 2..]))
  {
    hide ParseOperator;
    if s[0] != '%' {
      LiteralFirst(s[..1], Parse(s[1..]).value);
    } else if |s| > 1 && s[1] == '%' {
      LiteralFirst("%", Parse(s[2..]).value);
    }
    j := IndexOf(s[1..], '%').value;
  }

  lemma OnlyOperator(op: Op, first: Result<Op, ParseError>, rest: Result<seq<Segment>, ParseError>)
    requires Then(first, rest) == Ok([Operator(op)])
    ensures first == Ok(op) && rest == Ok([])
  {
    var whole := [Operator(first.value)] + rest.value;
    assert whole[0] == Operator(first.value) && whole[1..] == rest.value;
  }

  /** The first bad operator decides: text that parses, then a percent sign that is neither
      doubled nor closed, or that encloses a bad body, fails with exactly that error. */
  lemma FirstErrorWins(s: string, body: string, rest: string)
    requires Parse(s).Ok? && '%' !in body
    ensures Parse(s + ("%" + body)) == Err(UnterminatedOperator)
    ensures body != [] && ParseOperator(body).Err? ==> Parse(s + ("%" + body + "%" + rest)) == Err(ParseOperator(body).error)
  {
    hide ParseOperator;
    var open := "%" + body;
    assert open[1..] == body && (body == [] || body[0] in body);
    ParseConcat(s, open);
    var closed := "%" + body + "%" + rest;
    var j := |body| + 1;
    assert closed[1..j] == body && closed[0..] == closed && (body != [] ==> closed[1] == body[0]);
    if body != [] && ParseOperator(body).Err? {
      CloseFound(closed, 0, j);
      ParseConcat(s, closed);
    }
  }
}
