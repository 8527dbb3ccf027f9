// src/audit_pipeline/layer25_triage.py, _extract_balanced_json_objects: the
// top-level `{ ... }` substrings of a judge's reply.  Braces inside strings and
// after a backslash do not count.
module JsonScanner {
  import opened Bytes

  // ---- the automaton -------------------------------------------------------

  datatype Auto = Auto(depth: int, inString: bool, escape: bool)

  const START := Auto(0, false, false)

  /** One turn of the inner loop. */
  function Next(a: Auto, c: char): Auto {
    if a.escape then a.(escape := false)
    else if c == '\\' then a.(escape := true)
    else if c == '"' then a.(inString := !a.inString)
    else if a.inString then a
    else if c == '{' then a.(depth := a.depth + 1)
    else if c == '}' then a.(depth := a.depth - 1)
    else a
  }

  /** The brace that can end an object. */
  predicate Closes(a: Auto, c: char) {
    !a.escape && !a.inString && c == '}'
  }

  function Shift(k: nat, r: Option<nat>): Option<nat> {
    match r
    case None => None
    case Some(n) => Some(n + k)
  }

  /** How many characters the inner loop takes to bring the depth back to zero. */
  function Scan(a: Auto, s: string): (r: Option<nat>)
    ensures r.Some? ==> 1 <= r.value <= |s|
    decreases |s|
  {
    if s == "" then None
    else if Closes(a, s[0]) && Next(a, s[0]).depth == 0 then Some(1)
    else Shift(1, Scan(Next(a, s[0]), s[1..]))
  }

  function Objects(text: string): seq<string>
    decreases |text|
  {
    if text == "" then []
    else if text[0] != '{' then Objects(text[1..])
    else
      match Scan(START, text)
      case None => []
      case Some(k) => [text[..k]] + Objects(text[k..])
  }

  lemma ScanSkip(a: Auto, s: string)
    requires s != "" && !(Closes(a, s[0]) && Next(a, s[0]).depth == 0)
    ensures Scan(a, s) == Shift(1, Scan(Next(a, s[0]), s[1..]))
  {
  }

  lemma ShiftShift(j: nat, k: nat, r: Option<nat>)
    ensures Shift(j, Shift(k, r)) == Shift(j + k, r)
  {
  }

  lemma OneTurn(text: string, start: nat, i: nat, a: Auto)
    requires start <= i < |text|
    requires Scan(START, text[start..]) == Shift(i - start, Scan(a, text[i..]))
    ensures Scan(START, text[start..]) ==
            if Closes(a, text[i]) && Next(a, text[i]).depth == 0 then Some(i + 1 - start)
            else Shift(i + 1 - start, Scan(Next(a, text[i]), text[i + 1..]))
  {
    assert text[i..][0] == text[i] && text[i..][1..] == text[i + 1..];
    ShiftShift(i - start, 1, Scan(Next(a, text[i]), text[i + 1..]));
  }

  /** The inner loop, from the opening brace at `start`. */
  method ScanObject(text: string, start: nat) returns (i: nat, closed: bool)
    requires start < |text| && text[start] == '{'
    ensures Scan(START, text[start..]) == if closed then Some(i - start) else None
    ensures start < i <= |text|
  {
    var depth, inString, escape := 0, false, false;
    i := start;
    closed := false;
    while i < |text|
      invariant start <= i <= |text|
      invariant Scan(START, text[start..]) == Shift(i - start, Scan(Auto(depth, inString, escape), text[i..]))
      decreases |text| - i
    {
      var ch := text[i];
      ghost var a := Auto(depth, inString, escape);
      OneTurn(text, start, i, a);
      if escape {
        escape := false;
      } else if ch == '\\' {
        escape := true;
      } else if ch == '"' {
        inString := !inString;
      } else if inString {
      } else if ch == '{' {
        depth := depth + 1;
      } else if ch == '}' {
        depth := depth - 1;
        if depth == 0 {
          return i + 1, true;
        }
      }
      assert Next(a, ch) == Auto(depth, inString, escape);
      i := i + 1;
    }
  }

  method ExtractBalancedJsonObjects(text: string) returns (out: seq<string>)
    ensures out == Objects(text)
  {
    out := [];
    var i := 0;
    while i < |text|
      invariant 0 <= i <= |text|
      invariant out + Objects(text[i..]) == Objects(text)
      decreases |text| - i
    {
      if text[i] != '{' {
        ObjectsSkip(text, i);
        i := i + 1;
        continue;
      }
      var start := i;
      var closed;
      i, closed := ScanObject(text, start);
      if !closed {
        assert Objects(text[start..]) == [];
        return;
      }
      ObjectsTake(text, start, i - start);
      out := out + [text[start..i]];
    }
    assert text[i..] == "";
  }

  // ---- what an object is, without the scanner ------------------------------

  function After(a: Auto, s: string): Auto
    decreases |s|
  {
    if s == "" then a else After(Next(a, s[0]), s[1..])
  }

  /** The depth is positive on every proper non-empty prefix, and zero at the end. */
  predicate Balanced(o: string) {
    o != "" && o[0] == '{' && After(START, o).depth == 0 &&
    forall k :: 0 < k < |o| ==> After(START, o[..k]).depth > 0
  }

  predicate FirstZero(a: Auto, s: string, k: nat)
    requires k <= |s|
  {
    1 <= k && After(a, s[..k]).depth == 0 && forall j :: 0 < j < k ==> After(a, s[..j]).depth > 0
  }

  lemma AfterCons(a: Auto, s: string, k: nat)
    requires 0 < k <= |s|
    ensures After(a, s[..k]) == After(Next(a, s[0]), s[1..][..k - 1])
  {
    assert s[..k][1..] == s[1..][..k - 1];
  }

  lemma {:induction false} ScanFindsFirstZero(a: Auto, s: string, k: nat)
    requires a.depth >= 1 && k <= |s|
    ensures Scan(a, s) == Some(k) <==> FirstZero(a, s, k)
    decreases |s|
  {
    if s != "" && k > 0 {
      var b := Next(a, s[0]);
      AfterCons(a, s, 1);
      assert s[1..][..0] == "" && After(a, s[..1]) == b;
      if b.depth == 0 {
        assert k != 1 ==> !(After(a, s[..1]).depth > 0);
      } else {
        ScanFindsFirstZero(b, s[1..], k - 1);
        forall j | 0 < j <= |s|
          ensures After(a, s[..j]) == After(b, s[1..][..j - 1])
        {
          AfterCons(a, s, j);
        }
        if FirstZero(b, s[1..], k - 1) {
          forall j | 0 < j < k
            ensures After(a, s[..j]).depth > 0
          {
            assert j > 1 ==> After(b, s[1..][..j - 1]).depth > 0;
          }
        }
        if FirstZero(a, s, k) {
          forall j | 0 < j < k - 1
            ensures After(b, s[1..][..j]).depth > 0
          {
            assert After(a, s[..j + 1]).depth > 0;
          }
        }
      }
    }
  }

  /** After the opening brace, a prefix is what the automaton says of the rest of it. */
  lemma AfterBrace(s: string, k: nat, j: nat)
    requires s != "" && s[0] == '{' && 0 < j <= k <= |s|
    ensures After(START, s[..k][..j]) == After(Auto(1, false, false), s[1..][..j - 1])
  {
    assert s[..k][..j] == s[..j];
    AfterCons(START, s, j);
  }

  lemma BalancedHasFirstZero(s: string, k: nat)
    requires s != "" && s[0] == '{' && 1 <= k <= |s| && Balanced(s[..k])
    ensures FirstZero(Auto(1, false, false), s[1..], k - 1)
  {
    assert s[..k][..k] == s[..k];
    AfterBrace(s, k, k);
    assert s[1..][..0] == "";
    forall j | 0 < j < k - 1
      ensures After(Auto(1, false, false), s[1..][..j]).depth > 0
    {
      AfterBrace(s, k, j + 1);
    }
  }

  lemma FirstZeroIsBalanced(s: string, k: nat)
    requires s != "" && s[0] == '{' && 1 <= k <= |s| && FirstZero(Auto(1, false, false), s[1..], k - 1)
    ensures Balanced(s[..k])
  {
    assert s[..k][..k] == s[..k];
    AfterBrace(s, k, k);
    assert s[1..][..0] == "";
    forall j | 0 < j < k
      ensures After(START, s[..k][..j]).depth > 0
    {
      AfterBrace(s, k, j);
    }
  }

  /** From an opening brace the scan stops exactly at the end of a balanced prefix. */
  lemma ScanIffBalanced(s: string, k: nat)
    requires s != "" && s[0] == '{' && k <= |s|
    ensures Scan(START, s) == Some(k) <==> Balanced(s[..k])
  {
    ScanSkip(START, s);
    if k > 0 {
      ScanFindsFirstZero(Auto(1, false, false), s[1..], k - 1);
      if Balanced(s[..k]) {
        BalancedHasFirstZero(s, k);
      }
      if FirstZero(Auto(1, false, false), s[1..], k - 1) {
        FirstZeroIsBalanced(s, k);
      }
    }
  }

  /** Where the objects lie in the text. */
  datatype Span = Span(start: nat, end: nat)

  function Spans(text: string, at: nat): seq<Span>
    requires at <= |text|
    decreases |text| - at
  {
    if at == |text| then []
    else if text[at] != '{' then Spans(text, at + 1)
    else
      match Scan(START, text[at..])
      case None => []
      case Some(k) => [Span(at, at + k)] + Spans(text, at + k)
  }

  predicate NoBrace(s: string) {
    forall i :: 0 <= i < |s| ==> s[i] != '{'
  }

  /** The tail the scanner gives up on: no brace, or a first brace that is never closed. */
  predicate GivesUp(s: string)
    decreases |s|
  {
    s == "" || if s[0] != '{' then GivesUp(s[1..]) else forall k :: 0 <= k <= |s| ==> !Balanced(s[..k])
  }

  /** Spans from `at` on: in order, disjoint, balanced, brace-free in between, nothing more to find. */
  ghost predicate Covers(text: string, at: nat, spans: seq<Span>)
    requires at <= |text|
    decreases |spans|
  {
    if spans == [] then GivesUp(text[at..])
    else
      at <= spans[0].start < spans[0].end <= |text| &&
      NoBrace(text[at..spans[0].start]) && Balanced(text[spans[0].start..spans[0].end]) &&
      Covers(text, spans[0].end, spans[1..])
  }

  lemma CoversLater(text: string, at: nat, spans: seq<Span>)
    requires at < |text| && text[at] != '{' && Covers(text, at + 1, spans)
    ensures Covers(text, at, spans)
  {
    if spans == [] {
      assert text[at..][1..] == text[at + 1..];
    } else {
      assert text[at..spans[0].start] == [text[at]] + text[at + 1..spans[0].start];
    }
  }

  lemma NeverClosed(s: string)
    requires s != "" && s[0] == '{' && Scan(START, s).None?
    ensures GivesUp(s)
  {
    forall k | 0 <= k <= |s|
      ensures !Balanced(s[..k])
    {
      ScanIffBalanced(s, k);
    }
  }

  lemma CoversCons(text: string, at: nat, end: nat, rest: seq<Span>)
    requires at < end <= |text| && Balanced(text[at..end])
    requires Covers(text, end, rest)
    ensures Covers(text, at, [Span(at, end)] + rest)
  {
    assert ([Span(at, end)] + rest)[1..] == rest;
  }

  lemma SpansOf(text: string, at: nat)
    requires at < |text|
    ensures text[at] != '{' ==> Spans(text, at) == Spans(text, at + 1)
    ensures text[at] == '{' && Scan(START, text[at..]).None? ==> Spans(text, at) == [] && Objects(text[at..]) == []
  {
    assert text[at..][0] == text[at];
  }

  /** At a brace: the end of a balanced span, or nothing more to find. */
  lemma AtBrace(text: string, at: nat) returns (end: nat)
    requires at < |text| && text[at] == '{'
    ensures end == at ==> Spans(text, at) == [] && GivesUp(text[at..])
    ensures at <= end <= |text|
    ensures end > at ==> Balanced(text[at..end]) && Spans(text, at) == [Span(at, end)] + Spans(text, end)
  {
    var s := text[at..];
    end := at;
    match Scan(START, s)
    case None => NeverClosed(s);
    case Some(k) =>
      ScanIffBalanced(s, k);
      end := at + k;
      assert s[..k] == text[at..end];
  }

  /** On every text, the spans found are in order, disjoint, balanced and all there is. */
  lemma {:induction false} SpansCover(text: string, at: nat)
    requires at <= |text|
    ensures Covers(text, at, Spans(text, at))
    decreases |text| - at
  {
    if at < |text| {
      if text[at] != '{' {
        SpansCover(text, at + 1);
        CoversLater(text, at, Spans(text, at + 1));
      } else {
        var end := AtBrace(text, at);
        if end > at {
          SpansCover(text, end);
          CoversCons(text, at, end, Spans(text, end));
        }
      }
    }
  }

  function TextOf(text: string, span: Span): string {
    if span.start <= span.end <= |text| then text[span.start..span.end] else ""
  }

  function Texts(text: string, spans: seq<Span>): seq<string> {
    if spans == [] then [] else [TextOf(text, spans[0])] + Texts(text, spans[1..])
  }

  lemma ObjectsSkip(text: string, at: nat)
    requires at < |text| && text[at] != '{'
    ensures Objects(text[at..]) == Objects(text[at + 1..])
  {
    assert text[at..][1..] == text[at + 1..];
  }

  lemma ObjectsTake(text: string, at: nat, k: nat)
    requires at < |text| && text[at] == '{' && Scan(START, text[at..]) == Some(k)
    ensures Objects(text[at..]) == [text[at..at + k]] + Objects(text[at + k..])
  {
    var s := text[at..];
    assert s[..k] == text[at..at + k] && s[k..] == text[at + k..];
  }

  lemma TextsCons(text: string, span: Span, rest: seq<Span>)
    ensures Texts(text, [span] + rest) == [TextOf(text, span)] + Texts(text, rest)
  {
    assert ([span] + rest)[1..] == rest;
  }

  lemma TakeOne(text: string, at: nat, k: nat)
    requires at < |text| && text[at] == '{' && Scan(START, text[at..]) == Some(k)
    ensures Objects(text[at..]) == [TextOf(text, Span(at, at + k))] + Objects(text[at + k..])
    ensures Texts(text, Spans(text, at)) == [TextOf(text, Span(at, at + k))] + Texts(text, Spans(text, at + k))
  {
    ObjectsTake(text, at, k);
    TextsCons(text, Span(at, at + k), Spans(text, at + k));
  }

  /** And what the scanner returns are the texts of those spans. */
  lemma {:induction false} ObjectsAreTheSpans(text: string, at: nat)
    requires at <= |text|
    ensures Objects(text[at..]) == Texts(text, Spans(text, at))
    decreases |text| - at
  {
    if at == |text| {
      assert text[at..] == "";
    } else {
      SpansOf(text, at);
      if text[at] != '{' {
        ObjectsSkip(text, at);
        ObjectsAreTheSpans(text, at + 1);
      } else if Scan(START, text[at..]).Some? {
        var k := Scan(START, text[at..]).value;
        TakeOne(text, at, k);
        ObjectsAreTheSpans(text, at + k);
      }
    }
  }

  lemma GapIsEmpty(text: string, at: nat, start: nat)
    requires at <= start <= |text| && at < |text| && text[at] == '{' && NoBrace(text[at..start])
    ensures start == at
  {
    assert forall i :: at <= i < start ==> text[at..start][i - at] == text[i];
  }

  lemma GapIsNotEmpty(text: string, at: nat, start: nat, end: nat)
    requires at <= start < end <= |text| && text[at] != '{'
    requires NoBrace(text[at..start]) && Balanced(text[start..end])
    ensures at < start && NoBrace(text[at + 1..start])
  {
    assert text[start..end][0] == text[start];
    assert forall i :: at <= i < start ==> text[at..start][i - at] == text[i];
  }

  /** There is no other way to cover a text. */
  lemma {:induction false} CoverIsUnique(text: string, at: nat, spans: seq<Span>)
    requires at <= |text| && Covers(text, at, spans)
    ensures spans == Spans(text, at)
    decreases |text| - at
  {
    if at == |text| {
    } else if text[at] != '{' {
      assert text[at..][1..] == text[at + 1..];
      if spans != [] {
        GapIsNotEmpty(text, at, spans[0].start, spans[0].end);
      }
      CoverIsUnique(text, at + 1, spans);
    } else {
      var s := text[at..];
      if spans == [] {
        if Scan(START, s).Some? {
          ScanIffBalanced(s, Scan(START, s).value);
        }
      } else {
        GapIsEmpty(text, at, spans[0].start);
        var k := spans[0].end - at;
        assert s[..k] == text[at..spans[0].end];
        ScanIffBalanced(s, k);
        CoverIsUnique(text, spans[0].end, spans[1..]);
        assert spans == [spans[0]] + spans[1..];
      }
    }
  }

  // ---- round trip through a grammar ----------------------------------------

  datatype Char = Raw(c: char) | Escaped(c: char)

  /** The inside of an object: plain characters, escapes, strings and nested objects. */
  datatype Item = Plain(ch: Char) | Str(chars: seq<Char>) | Obj(items: seq<Item>)

  function RenderChar(c: Char): string {
    match c
    case Raw(c) => [c]
    case Escaped(c) => ['\\', c]
  }

  function RenderChars(cs: seq<Char>): string {
    if cs == [] then "" else RenderChar(cs[0]) + RenderChars(cs[1..])
  }

  function Render(i: Item): string
    decreases i
  {
    match i
    case Plain(c) => RenderChar(c)
    case Str(cs) => ['"'] + (RenderChars(cs) + ['"'])
    case Obj(items) => ['{'] + (RenderAll(items) + ['}'])
  }

  function RenderAll(items: seq<Item>): string
    decreases items
  {
    if items == [] then "" else Render(items[0]) + RenderAll(items[1..])
  }

  /** Raw characters outside strings are not structural; inside strings they do not end the string. */
  predicate WellFormed(i: Item)
    decreases i
  {
    match i
    case Plain(c) => c.Raw? ==> c.c != '{' && c.c != '}' && c.c != '"' && c.c != '\\'
    case Str(cs) => forall k :: 0 <= k < |cs| ==> cs[k].Raw? ==> cs[k].c != '"' && cs[k].c != '\\'
    case Obj(items) => forall k :: 0 <= k < |items| ==> WellFormed(items[k])
  }

  lemma ScanChar(a: Auto, c: Char, rest: string)
    requires !a.escape && a.depth >= 1
    requires c.Raw? ==> c.c != '"' && c.c != '\\' && (!a.inString ==> c.c != '{' && c.c != '}')
    ensures Scan(a, RenderChar(c) + rest) == Shift(|RenderChar(c)|, Scan(a, rest))
  {
    var s := RenderChar(c) + rest;
    match c
    case Raw(_) =>
      assert s[1..] == rest;
    case Escaped(d) =>
      assert s[1..] == [d] + rest && s[1..][1..] == rest;
      ScanSkip(a, s);
      ScanSkip(a.(escape := true), s[1..]);
      ShiftShift(1, 1, Scan(a, rest));
  }

  lemma {:induction false} ScanString(a: Auto, cs: seq<Char>, rest: string)
    requires !a.escape && a.inString && a.depth >= 1 && WellFormed(Str(cs))
    ensures Scan(a, RenderChars(cs) + rest) == Shift(|RenderChars(cs)|, Scan(a, rest))
  {
    if cs == [] {
      assert RenderChars(cs) + rest == rest;
      ShiftZero(Scan(a, rest));
    } else {
      Regroup(RenderChar(cs[0]), RenderChars(cs[1..]), rest);
      ScanChar(a, cs[0], RenderChars(cs[1..]) + rest);
      ScanString(a, cs[1..], rest);
      ShiftShift(|RenderChar(cs[0])|, |RenderChars(cs[1..])|, Scan(a, rest));
    }
  }

  lemma ShiftZero(r: Option<nat>)
    ensures Shift(0, r) == r
  {
  }

  /** One character that moves the automaton. */
  lemma ScanOne(a: Auto, c: char, rest: string)
    requires !(Closes(a, c) && Next(a, c).depth == 0)
    ensures Scan(a, [c] + rest) == Shift(1, Scan(Next(a, c), rest))
  {
    assert ([c] + rest)[1..] == rest;
  }

  /** An opening and a closing character around a body the scan passes over whole. */
  lemma ScanWrapped(a: Auto, b: Auto, open: char, body: string, close: char, rest: string)
    requires !(Closes(a, open) && Next(a, open).depth == 0) && Next(a, open) == b
    requires !(Closes(b, close) && Next(b, close).depth == 0) && Next(b, close) == a
    requires Scan(b, body + ([close] + rest)) == Shift(|body|, Scan(b, [close] + rest))
    ensures Scan(a, ([open] + (body + [close])) + rest) == Shift(|body| + 2, Scan(a, rest))
  {
    Regroup([open], body + [close], rest);
    Regroup(body, [close], rest);
    ScanOne(a, open, body + ([close] + rest));
    ScanOne(b, close, rest);
    ShiftShift(|body|, 1, Scan(a, rest));
    ShiftShift(1, |body| + 1, Scan(a, rest));
  }

  lemma ScanQuoted(depth: nat, cs: seq<Char>, rest: string)
    requires depth >= 1 && WellFormed(Str(cs))
    ensures Scan(Auto(depth, false, false), Render(Str(cs)) + rest) ==
            Shift(|RenderChars(cs)| + 2, Scan(Auto(depth, false, false), rest))
  {
    ScanString(Auto(depth, true, false), cs, ['"'] + rest);
    ScanWrapped(Auto(depth, false, false), Auto(depth, true, false), '"', RenderChars(cs), '"', rest);
  }

  lemma ScanBraces(depth: nat, body: string, rest: string)
    requires depth >= 1
    requires Scan(Auto(depth + 1, false, false), body + (['}'] + rest)) ==
             Shift(|body|, Scan(Auto(depth + 1, false, false), ['}'] + rest))
    ensures Scan(Auto(depth, false, false), (['{'] + (body + ['}'])) + rest) ==
            Shift(|body| + 2, Scan(Auto(depth, false, false), rest))
  {
    ScanWrapped(Auto(depth, false, false), Auto(depth + 1, false, false), '{', body, '}', rest);
  }

  /** Inside an object, a well-formed item is passed over whole. */
  lemma {:induction false} ScanItem(depth: nat, i: Item, rest: string)
    requires depth >= 1 && WellFormed(i)
    ensures Scan(Auto(depth, false, false), Render(i) + rest) ==
            Shift(|Render(i)|, Scan(Auto(depth, false, false), rest))
    decreases i
  {
    match i
    case Plain(c) => ScanChar(Auto(depth, false, false), c, rest);
    case Str(cs) => ScanQuoted(depth, cs, rest);
    case Obj(items) =>
      ScanItems(depth + 1, items, ['}'] + rest);
      ScanBraces(depth, RenderAll(items), rest);
  }

  lemma {:induction false} ScanItems(depth: nat, items: seq<Item>, rest: string)
    requires depth >= 1 && forall k :: 0 <= k < |items| ==> WellFormed(items[k])
    ensures Scan(Auto(depth, false, false), RenderAll(items) + rest) ==
            Shift(|RenderAll(items)|, Scan(Auto(depth, false, false), rest))
    decreases items
  {
    var a := Auto(depth, false, false);
    if items == [] {
      assert RenderAll(items) + rest == rest;
      ShiftZero(Scan(a, rest));
    } else {
      Regroup(Render(items[0]), RenderAll(items[1..]), rest);
      ScanItem(depth, items[0], RenderAll(items[1..]) + rest);
      ScanItems(depth, items[1..], rest);
      ShiftShift(|Render(items[0])|, |RenderAll(items[1..])|, Scan(a, rest));
    }
  }

  /** A top-level object is taken whole. */
  lemma ScanTopObject(items: seq<Item>, rest: string)
    requires WellFormed(Obj(items))
    ensures Scan(START, Render(Obj(items)) + rest) == Some(|Render(Obj(items))|)
  {
    var body := RenderAll(items);
    var b := Auto(1, false, false);
    Regroup(['{'], body + ['}'], rest);
    Regroup(body, ['}'], rest);
    ScanOne(START, '{', body + (['}'] + rest));
    ScanItems(1, items, ['}'] + rest);
    assert Scan(b, ['}'] + rest) == Some(1);
  }

  /** Some text without an opening brace, and an object after it. */
  datatype Piece = Piece(prose: string, items: seq<Item>)

  function Interleave(pieces: seq<Piece>, last: string): string {
    if pieces == [] then last
    else pieces[0].prose + (Render(Obj(pieces[0].items)) + Interleave(pieces[1..], last))
  }

  function RenderedObjects(pieces: seq<Piece>): seq<string> {
    if pieces == [] then [] else [Render(Obj(pieces[0].items))] + RenderedObjects(pieces[1..])
  }

  lemma {:induction false} SkipProse(prose: string, rest: string)
    requires NoBrace(prose)
    ensures Objects(prose + rest) == Objects(rest)
  {
    if prose == "" {
      assert prose + rest == rest;
    } else {
      assert (prose + rest)[1..] == prose[1..] + rest;
      SkipProse(prose[1..], rest);
    }
  }

  /** For every interleaving of prose and objects the scanner returns exactly the objects, in order. */
  lemma {:induction false} ScannerRoundTrip(pieces: seq<Piece>, last: string)
    requires NoBrace(last)
    requires forall k :: 0 <= k < |pieces| ==> NoBrace(pieces[k].prose) && WellFormed(Obj(pieces[k].items))
    ensures Objects(Interleave(pieces, last)) == RenderedObjects(pieces)
  {
    if pieces == [] {
      SkipProse(last, "");
      assert last + "" == last;
    } else {
      var braces := Render(Obj(pieces[0].items));
      var rest := Interleave(pieces[1..], last);
      SkipProse(pieces[0].prose, braces + rest);
      ScanTopObject(pieces[0].items, rest);
      assert (braces + rest)[..|braces|] == braces && (braces + rest)[|braces|..] == rest;
      assert (braces + rest)[0] == '{';
      ScannerRoundTrip(pieces[1..], last);
    }
  }
}
