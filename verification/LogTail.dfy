// deploy/jelleo-sse.py, _tail_one_workspace: the buffer loop that turns the
// chunks read from a growing log into lines, and the lines into events.
module LogTail {
  import opened Bytes
  import opened Text

  // ---- lines ---------------------------------------------------------------

  /** The complete lines, in order. */
  function RawLines(s: string): seq<string>
    decreases |s|
  {
    var k := LineEnd(s);
    if k == |s| then [] else [s[..k]] + RawLines(s[k + 1..])
  }

  /** What follows the last newline. */
  function Remainder(s: string): string
    decreases |s|
  {
    var k := LineEnd(s);
    if k == |s| then s else Remainder(s[k + 1..])
  }

  function NonBlank(lines: seq<string>): seq<string> {
    if lines == [] then []
    else if Strip(lines[0]) == "" then NonBlank(lines[1..])
    else [Strip(lines[0])] + NonBlank(lines[1..])
  }

  /** The lines that are handed to the JSON parser. */
  function Handed(s: string): seq<string> {
    NonBlank(RawLines(s))
  }

  function Unlines(lines: seq<string>): string {
    if lines == [] then "" else lines[0] + (['\n'] + Unlines(lines[1..]))
  }

  predicate NewlineFree(lines: seq<string>) {
    lines == [] || ('\n' !in lines[0] && NewlineFree(lines[1..]))
  }

  lemma FirstLine(s: string, line: string, rest: string)
    requires '\n' !in line && s == line + (['\n'] + rest)
    ensures RawLines(s) == [line] + RawLines(rest)
    ensures Remainder(s) == Remainder(rest)
  {
    LineEndOf(line, rest);
    assert s[..|line|] == line && s[|line| + 1..] == rest;
  }

  lemma Cut(s: string, k: nat)
    requires k < |s|
    ensures s == s[..k] + ([s[k]] + s[k + 1..])
  {
  }

  lemma AtLineEnd(s: string)
    requires LineEnd(s) < |s|
    ensures s == s[..LineEnd(s)] + (['\n'] + s[LineEnd(s) + 1..])
  {
    Cut(s, LineEnd(s));
  }

  lemma Associate(a: string, line: string, rest: string, b: string)
    requires a == line + (['\n'] + rest)
    ensures a + b == line + (['\n'] + (rest + b))
  {
  }

  lemma UnlinesCons(line: string, lines: seq<string>)
    ensures Unlines([line] + lines) == line + (['\n'] + Unlines(lines))
  {
    assert ([line] + lines)[1..] == lines;
  }

  /** One line more in front of text that is read back. */
  lemma ReadBackCons(line: string, lines: seq<string>, tail: string, rest: string)
    requires '\n' !in line && RawLines(tail + rest) == lines && Remainder(tail + rest) == rest
    ensures RawLines((line + (['\n'] + tail)) + rest) == [line] + lines
    ensures Remainder((line + (['\n'] + tail)) + rest) == rest
  {
    Associate(line + (['\n'] + tail), line, tail, rest);
    FirstLine((line + (['\n'] + tail)) + rest, line, tail + rest);
  }

  /** Every list of newline-free lines with a newline-free rest is read back as it is. */
  lemma {:induction false} LinesReadBack(lines: seq<string>, rest: string)
    requires NewlineFree(lines) && '\n' !in rest
    ensures RawLines(Unlines(lines) + rest) == lines
    ensures Remainder(Unlines(lines) + rest) == rest
  {
    if lines == [] {
      assert Unlines(lines) + rest == rest;
      NoLine(rest);
    } else {
      var line, others := lines[0], lines[1..];
      LinesReadBack(others, rest);
      ReadBackCons(line, others, Unlines(others), rest);
      UnlinesCons(line, others);
      assert lines == [line] + others;
    }
  }

  lemma NoLine(a: string)
    requires LineEnd(a) == |a|
    ensures RawLines(a) == [] && Remainder(a) == a
  {
  }

  lemma TextIsLinesStep(s: string, line: string, rest: string)
    requires '\n' !in line && s == line + (['\n'] + rest)
    requires rest == Unlines(RawLines(rest)) + Remainder(rest)
    requires NewlineFree(RawLines(rest))
    ensures s == Unlines(RawLines(s)) + Remainder(s) && NewlineFree(RawLines(s)) && Remainder(s) == Remainder(rest)
  {
    var others := RawLines(rest);
    FirstLine(s, line, rest);
    UnlinesCons(line, others);
    Associate(Unlines([line] + others), line, Unlines(others), Remainder(rest));
    assert ([line] + others)[1..] == others;
  }

  /** And every text is such a list of lines and such a rest. */
  lemma {:induction false} TextIsLines(s: string)
    ensures s == Unlines(RawLines(s)) + Remainder(s)
    ensures NewlineFree(RawLines(s)) && '\n' !in Remainder(s)
    decreases |s|
  {
    var k := LineEnd(s);
    if k == |s| {
      NoLine(s);
      assert s[..k] == s;
      assert [] + s == s;
    } else {
      AtLineEnd(s);
      TextIsLines(s[k + 1..]);
      TextIsLinesStep(s, s[..k], s[k + 1..]);
    }
  }

  lemma TwoPiecesStep(a: string, line: string, rest: string, b: string)
    requires '\n' !in line && a == line + (['\n'] + rest)
    requires RawLines(rest + b) == RawLines(rest) + RawLines(Remainder(rest) + b)
    requires Remainder(rest + b) == Remainder(Remainder(rest) + b)
    ensures RawLines(a + b) == RawLines(a) + RawLines(Remainder(a) + b)
    ensures Remainder(a + b) == Remainder(Remainder(a) + b)
  {
    Associate(a, line, rest, b);
    FirstLine(a, line, rest);
    FirstLine(a + b, line, rest + b);
    Regroup([line], RawLines(rest), RawLines(Remainder(rest) + b));
  }

  /** Reading a text in two pieces, the second behind what the first left over. */
  lemma {:induction false} TwoPieces(a: string, b: string)
    ensures RawLines(a + b) == RawLines(a) + RawLines(Remainder(a) + b)
    ensures Remainder(a + b) == Remainder(Remainder(a) + b)
    decreases |a|
  {
    var k := LineEnd(a);
    if k == |a| {
      NoLine(a);
      assert [] + RawLines(a + b) == RawLines(a + b);
    } else {
      var rest := a[k + 1..];
      AtLineEnd(a);
      TwoPieces(rest, b);
      TwoPiecesStep(a, a[..k], rest, b);
    }
  }

  lemma {:induction false} NonBlankConcat(x: seq<string>, y: seq<string>)
    ensures NonBlank(x + y) == NonBlank(x) + NonBlank(y)
  {
    if x == [] {
      assert x + y == y;
    } else {
      assert (x + y)[1..] == x[1..] + y;
      NonBlankConcat(x[1..], y);
    }
  }

  // ---- events --------------------------------------------------------------

  /** A JSON object, its values as JSON text. */
  type Event = map<string, string>

  /** What json.loads makes of a line that it accepts. */
  datatype Json = Object(fields: Event) | NotAnObject

  type Parser = string -> Option<Json>

  /** The two fields the tailer forces on every event. */
  function Stamped(e: Event, cycle: string, customer: string): Event {
    e["_cycle" := cycle]["customer_id" := customer]
  }

  /** Its two fields name the cycle and the customer; every other field is as it was read. */
  lemma StampedIs(e: Event, cycle: string, customer: string, field: string)
    ensures field in Stamped(e, cycle, customer) <==> field in e || field == "_cycle" || field == "customer_id"
    ensures field in Stamped(e, cycle, customer) ==>
              Stamped(e, cycle, customer)[field] ==
              if field == "_cycle" then cycle else if field == "customer_id" then customer else e[field]
  {
    assert "_cycle"[0] != "customer_id"[0];
  }

  /** The first line that parses to something else than an object raises TypeError and ends the tailer. */
  predicate Fatal(lines: seq<string>, parse: Parser) {
    exists k :: 0 <= k < |lines| && parse(lines[k]) == Some(NotAnObject)
  }

  function Sent(lines: seq<string>, parse: Parser, cycle: string, customer: string): seq<Event> {
    if lines == [] then []
    else
      match parse(lines[0])
      case None => Sent(lines[1..], parse, cycle, customer)
      case Some(NotAnObject) => []
      case Some(Object(fields)) => [Stamped(fields, cycle, customer)] + Sent(lines[1..], parse, cycle, customer)
  }

  lemma FatalConcat(x: seq<string>, y: seq<string>, parse: Parser)
    ensures Fatal(x + y, parse) <==> Fatal(x, parse) || Fatal(y, parse)
  {
    var all := x + y;
    assert forall k :: 0 <= k < |x| ==> all[k] == x[k];
    assert forall k :: 0 <= k < |y| ==> all[|x| + k] == y[k];
    if Fatal(all, parse) {
      var k :| 0 <= k < |all| && parse(all[k]) == Some(NotAnObject);
      assert all[k] == if k < |x| then x[k] else y[k - |x|];
    }
  }

  lemma SentCons(line: string, rest: seq<string>, parse: Parser, cycle: string, customer: string)
    ensures Fatal([line] + rest, parse) <==> parse(line) == Some(NotAnObject) || Fatal(rest, parse)
    ensures Sent([line] + rest, parse, cycle, customer) ==
            match parse(line)
            case None => Sent(rest, parse, cycle, customer)
            case Some(NotAnObject) => []
            case Some(Object(fields)) => [Stamped(fields, cycle, customer)] + Sent(rest, parse, cycle, customer)
  {
    assert ([line] + rest)[1..] == rest;
    FatalConcat([line], rest, parse);
    assert [line][0] == line;
  }

  lemma SentConcatStep(line: string, x: seq<string>, y: seq<string>, parse: Parser, cycle: string, customer: string)
    requires Sent(x + y, parse, cycle, customer) ==
             Sent(x, parse, cycle, customer) + if Fatal(x, parse) then [] else Sent(y, parse, cycle, customer)
    ensures Sent([line] + (x + y), parse, cycle, customer) ==
            Sent([line] + x, parse, cycle, customer) +
            if Fatal([line] + x, parse) then [] else Sent(y, parse, cycle, customer)
  {
    SentCons(line, x, parse, cycle, customer);
    SentCons(line, x + y, parse, cycle, customer);
    match parse(line)
    case None =>
    case Some(NotAnObject) =>
    case Some(Object(fields)) =>
      var others := if Fatal(x, parse) then [] else Sent(y, parse, cycle, customer);
      Regroup([Stamped(fields, cycle, customer)], Sent(x, parse, cycle, customer), others);
  }

  lemma {:induction false} SentConcat(x: seq<string>, y: seq<string>, parse: Parser, cycle: string, customer: string)
    ensures Sent(x + y, parse, cycle, customer) ==
            Sent(x, parse, cycle, customer) + if Fatal(x, parse) then [] else Sent(y, parse, cycle, customer)
  {
    if x == [] {
      assert x + y == y;
    } else {
      var line, rest := x[0], x[1..];
      assert x == [line] + rest && x + y == [line] + (rest + y);
      SentConcat(rest, y, parse, cycle, customer);
      SentConcatStep(line, rest, y, parse, cycle, customer);
    }
  }

  // ---- the loop ------------------------------------------------------------

  /** What is broadcast, whether the tailer is dead, and what stays in the buffer. */
  datatype Tail = Tail(sent: seq<Event>, crashed: bool, buf: string)

  function Drain(buf: string, parse: Parser, cycle: string, customer: string): Tail
    decreases |buf|
  {
    var nl := LineEnd(buf);
    if nl == |buf| then Tail([], false, buf)
    else
      var line, rest := Strip(buf[..nl]), buf[nl + 1..];
      if line == "" then Drain(rest, parse, cycle, customer)
      else
        match parse(line)
        case None => Drain(rest, parse, cycle, customer)
        case Some(NotAnObject) => Tail([], true, rest)
        case Some(Object(fields)) => After([Stamped(fields, cycle, customer)], Drain(rest, parse, cycle, customer))
  }

  function After(sent: seq<Event>, t: Tail): Tail {
    t.(sent := sent + t.sent)
  }

  lemma AfterAfter(a: seq<Event>, b: seq<Event>, t: Tail)
    ensures After(a, After(b, t)) == After(a + b, t)
  {
    assert a + (b + t.sent) == (a + b) + t.sent;
  }

  lemma HandedStep(buf: string)
    requires LineEnd(buf) < |buf|
    ensures var line := Strip(buf[..LineEnd(buf)]);
            var rest := buf[LineEnd(buf) + 1..];
            Remainder(buf) == Remainder(rest) &&
            Handed(buf) == if line == "" then Handed(rest) else [line] + Handed(rest)
  {
    var first := buf[..LineEnd(buf)];
    var others := RawLines(buf[LineEnd(buf) + 1..]);
    assert ([first] + others)[1..] == others;
  }

  ghost predicate SendsTheLines(t: Tail, lines: seq<string>, parse: Parser, cycle: string, customer: string) {
    t.sent == Sent(lines, parse, cycle, customer) && t.crashed == Fatal(lines, parse)
  }

  lemma OneLine(line: string, t: Tail, lines: seq<string>, buf: string, parse: Parser, cycle: string, customer: string)
    requires SendsTheLines(t, lines, parse, cycle, customer)
    ensures match parse(line)
            case None => SendsTheLines(t, [line] + lines, parse, cycle, customer)
            case Some(NotAnObject) => SendsTheLines(Tail([], true, buf), [line] + lines, parse, cycle, customer)
            case Some(Object(fields)) =>
              SendsTheLines(After([Stamped(fields, cycle, customer)], t), [line] + lines, parse, cycle, customer)
  {
    SentCons(line, lines, parse, cycle, customer);
  }

  /** The loop sends what the complete lines say and keeps the unterminated rest. */
  lemma {:induction false} DrainSendsTheLines(buf: string, parse: Parser, cycle: string, customer: string)
    ensures SendsTheLines(Drain(buf, parse, cycle, customer), Handed(buf), parse, cycle, customer)
    ensures !Drain(buf, parse, cycle, customer).crashed ==> Drain(buf, parse, cycle, customer).buf == Remainder(buf)
    decreases |buf|
  {
    var nl := LineEnd(buf);
    if nl == |buf| {
      NoLine(buf);
    } else {
      var line, rest := Strip(buf[..nl]), buf[nl + 1..];
      HandedStep(buf);
      DrainSendsTheLines(rest, parse, cycle, customer);
      OneLine(line, Drain(rest, parse, cycle, customer), Handed(rest), rest, parse, cycle, customer);
    }
  }

  class Tailer {
    const cycle: string
    const customer: string
    var buf: string
    var crashed: bool

    constructor (cycle: string, customer: string)
      ensures this.cycle == cycle && this.customer == customer && buf == "" && !crashed
    {
      this.cycle, this.customer := cycle, customer;
      buf, crashed := "", false;
    }

    /** What one `read()` adds; the result lists the broadcasts in order. */
    method Feed(chunk: string, parse: Parser) returns (sent: seq<Event>)
      requires !crashed
      modifies this
      ensures Tail(sent, crashed, buf) == Drain(old(buf) + chunk, parse, cycle, customer)
    {
      sent := [];
      buf := buf + chunk;
      while true
        invariant !crashed
        invariant After(sent, Drain(buf, parse, cycle, customer)) == Drain(old(buf) + chunk, parse, cycle, customer)
        decreases |buf|
      {
        var nl := LineEnd(buf);
        if nl == |buf| {
          break;
        }
        var line := Strip(buf[..nl]);
        ghost var before := Drain(buf, parse, cycle, customer);
        buf := buf[nl + 1..];
        if line == "" {
          continue;
        }
        match parse(line) {
          case None =>
          case Some(NotAnObject) =>
            crashed := true;
            return;
          case Some(Object(fields)) =>
            var event := Stamped(fields, cycle, customer);
            AfterAfter(sent, [event], Drain(buf, parse, cycle, customer));
            sent := sent + [event];
        }
      }
    }

    /** A new or truncated log: what was half read is dropped. */
    method Reopen()
      modifies this
      ensures buf == "" && crashed == old(crashed)
    {
      buf := "";
    }
  }

  // ---- many chunks ---------------------------------------------------------

  /** One call of Tailer.Feed; a crashed tailer reads no more. */
  function Fed(t: Tail, chunk: string, parse: Parser, cycle: string, customer: string): Tail {
    if t.crashed then t else After(t.sent, Drain(t.buf + chunk, parse, cycle, customer))
  }

  function FedAll(chunks: seq<string>, parse: Parser, cycle: string, customer: string): Tail {
    if chunks == [] then Tail([], false, "")
    else
      var n := |chunks| - 1;
      Fed(FedAll(chunks[..n], parse, cycle, customer), chunks[n], parse, cycle, customer)
  }

  function Whole(chunks: seq<string>): string {
    if chunks == [] then "" else Whole(chunks[..|chunks| - 1]) + chunks[|chunks| - 1]
  }

  lemma FeedTwice(before: string, chunk: string, parse: Parser, cycle: string, customer: string)
    requires !Fatal(Handed(before), parse)
    ensures Handed(before + chunk) == Handed(before) + Handed(Remainder(before) + chunk)
    ensures Fatal(Handed(before + chunk), parse) == Fatal(Handed(Remainder(before) + chunk), parse)
    ensures Sent(Handed(before + chunk), parse, cycle, customer) ==
            Sent(Handed(before), parse, cycle, customer) +
            Sent(Handed(Remainder(before) + chunk), parse, cycle, customer)
  {
    TwoPieces(before, chunk);
    NonBlankConcat(RawLines(before), RawLines(Remainder(before) + chunk));
    SentConcat(Handed(before), Handed(Remainder(before) + chunk), parse, cycle, customer);
    FatalConcat(Handed(before), Handed(Remainder(before) + chunk), parse);
  }

  lemma FeedAfterDeath(before: string, chunk: string, parse: Parser, cycle: string, customer: string)
    requires Fatal(Handed(before), parse)
    ensures Fatal(Handed(before + chunk), parse)
    ensures Sent(Handed(before + chunk), parse, cycle, customer) == Sent(Handed(before), parse, cycle, customer)
  {
    TwoPieces(before, chunk);
    NonBlankConcat(RawLines(before), RawLines(Remainder(before) + chunk));
    SentConcat(Handed(before), Handed(Remainder(before) + chunk), parse, cycle, customer);
    FatalConcat(Handed(before), Handed(Remainder(before) + chunk), parse);
  }

  /** However the text is cut into chunks, what is sent is what its complete lines say, once each. */
  lemma {:induction false} ChunkingIndependence(chunks: seq<string>, parse: Parser, cycle: string, customer: string)
    ensures var t := FedAll(chunks, parse, cycle, customer);
            var lines := Handed(Whole(chunks));
            t.sent == Sent(lines, parse, cycle, customer) && t.crashed == Fatal(lines, parse) &&
            (!t.crashed ==> t.buf == Remainder(Whole(chunks)))
  {
    if chunks != [] {
      var n := |chunks| - 1;
      var before, chunk := Whole(chunks[..n]), chunks[n];
      ChunkingIndependence(chunks[..n], parse, cycle, customer);
      if Fatal(Handed(before), parse) {
        FeedAfterDeath(before, chunk, parse, cycle, customer);
      } else {
        FeedTwice(before, chunk, parse, cycle, customer);
        TwoPieces(before, chunk);
        DrainSendsTheLines(Remainder(before) + chunk, parse, cycle, customer);
      }
    }
  }
}
