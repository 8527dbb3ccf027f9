// src/audit_pipeline/bundle/patcher.py, _repair_hunk_counts, and its twin
// scripts/fix_patch_hunk_counts.py, fix_patch: unified-diff hunk headers are
// rewritten so that their line counts match the lines that follow.  Lines keep
// their ends, as splitlines(keepends=True) gives them; digits are ASCII.
module HunkRepair {
  import opened Bytes
  import opened Text
  import FileLines

  datatype Header = Header(oldStart: nat, oldCount: nat, newStart: nat, newCount: nat)

  // ---- headers -------------------------------------------------------------

  function After(prefix: string, s: string): Option<string> {
    if prefix <= s then Some(s[|prefix|..]) else None
  }

  /** `(\d+)`, greedy. */
  function ReadNat(s: string): Option<(nat, string)> {
    var k := DigitRun(s);
    if k == 0 then None else Some((DigitsValue(s[..k]), s[k..]))
  }

  /** A number and the literal that follows it. */
  function ReadField(s: string, literal: string): Option<(nat, string)> {
    match ReadNat(s)
    case None => None
    case Some((n, rest)) =>
      match After(literal, rest)
      case None => None
      case Some(tail) => Some((n, tail))
  }

  function ReadFields(s: string, literals: seq<string>): Option<seq<nat>> {
    if literals == [] then Some([])
    else
      match ReadField(s, literals[0])
      case None => None
      case Some((n, rest)) =>
        match ReadFields(rest, literals[1..])
        case None => None
        case Some(ns) => Some([n] + ns)
  }

  const LITERALS: seq<string> := [",", " +", ",", " @@"]

  lemma {:induction false} FieldCount(s: string, literals: seq<string>)
    ensures ReadFields(s, literals).Some? ==> |ReadFields(s, literals).value| == |literals|
  {
    if literals != [] && ReadField(s, literals[0]).Some? {
      FieldCount(ReadField(s, literals[0]).value.1, literals[1..]);
    }
  }

  /** The match of `^@@ -(\d+),(\d+) \+(\d+),(\d+) @@`. */
  function ParseHeader(line: string): Option<Header> {
    match After("@@ -", line)
    case None => None
    case Some(s) =>
      match ReadFields(s, LITERALS)
      case None => None
      case Some(ns) => FieldCount(s, LITERALS); Some(Header(ns[0], ns[1], ns[2], ns[3]))
  }

  function RenderFields(ns: seq<nat>, literals: seq<string>, end: string): string
    requires |ns| == |literals|
  {
    if ns == [] then end else Decimal(ns[0]) + (literals[0] + RenderFields(ns[1..], literals[1..], end))
  }

  function Render(h: Header): string {
    "@@ -" + RenderFields([h.oldStart, h.oldCount, h.newStart, h.newCount], LITERALS, "\n")
  }

  lemma ReadRenderedField(n: nat, literal: string, rest: string)
    requires literal != "" && !IsDigit(literal[0])
    ensures ReadField(Decimal(n) + (literal + rest), literal) == Some((n, rest))
  {
    var tail := literal + rest;
    DigitRunOf(Decimal(n), tail);
    DecimalValue(n);
    assert (Decimal(n) + tail)[..|Decimal(n)|] == Decimal(n);
    assert (Decimal(n) + tail)[|Decimal(n)|..] == tail;
    assert literal <= tail && tail[|literal|..] == rest;
  }

  lemma ReadFieldsCons(n: nat, literal: string, rest: string, literals: seq<string>, ns: seq<nat>)
    requires literal != "" && !IsDigit(literal[0])
    requires ReadFields(rest, literals) == Some(ns)
    ensures ReadFields(Decimal(n) + (literal + rest), [literal] + literals) == Some([n] + ns)
  {
    ReadRenderedField(n, literal, rest);
    assert ([literal] + literals)[1..] == literals;
  }

  lemma RenderFieldsCons(n: nat, ns: seq<nat>, literal: string, literals: seq<string>, end: string)
    requires |ns| == |literals|
    ensures RenderFields([n] + ns, [literal] + literals, end)
         == Decimal(n) + (literal + RenderFields(ns, literals, end))
  {
    assert ([n] + ns)[1..] == ns && ([literal] + literals)[1..] == literals;
  }

  predicate Literals(literals: seq<string>) {
    literals == [] || (literals[0] != "" && !IsDigit(literals[0][0]) && Literals(literals[1..]))
  }

  lemma {:induction false} ReadRenderedFields(ns: seq<nat>, literals: seq<string>, end: string)
    requires |ns| == |literals| && Literals(literals)
    ensures ReadFields(RenderFields(ns, literals, end), literals) == Some(ns)
  {
    if ns != [] {
      var n, others, literal, behind := ns[0], ns[1..], literals[0], literals[1..];
      ReadRenderedFields(others, behind, end);
      ReadFieldsCons(n, literal, RenderFields(others, behind, end), behind, others);
      RenderFieldsCons(n, others, literal, behind, end);
      assert ns == [n] + others && literals == [literal] + behind;
    }
  }

  lemma LiteralsAreLiterals()
    ensures Literals(LITERALS)
  {
    assert LITERALS[1..] == [" +", ",", " @@"] && LITERALS[1..][1..] == [",", " @@"];
    assert LITERALS[1..][1..][1..] == [" @@"] && LITERALS[1..][1..][1..][1..] == [];
  }

  lemma ParseRendered(h: Header)
    ensures ParseHeader(Render(h)) == Some(h)
    ensures "@@" <= Render(h)
  {
    var ns := [h.oldStart, h.oldCount, h.newStart, h.newCount];
    LiteralsAreLiterals();
    ReadRenderedFields(ns, LITERALS, "\n");
    assert Render(h)[4..] == RenderFields(ns, LITERALS, "\n");
  }

  lemma HeaderStartsHunk(line: string)
    requires ParseHeader(line).Some?
    ensures EndsBody(line)
  {
    assert "@@ -" <= line;
    assert line[..2] == "@@ -"[..2] == "@@";
  }

  // ---- bodies --------------------------------------------------------------

  /** A line at which the scan for the end of a body stops. */
  predicate EndsBody(line: string) {
    "@@" <= line || "---" <= line
  }

  predicate StartsWith(line: string, c: char) {
    line != "" && line[0] == c
  }

  lemma EndStarts(line: string)
    requires EndsBody(line)
    ensures StartsWith(line, '@') || StartsWith(line, '-')
  {
    assert line[0] == line[..1][0];
    assert "@@" <= line ==> line[0] == "@@"[0];
    assert "---" <= line ==> line[0] == "---"[0];
  }

  datatype Kind = Removed | Added | Context | Note | Junk

  /** How the repair counts a line: in the order of its if-chain. */
  function KindOf(line: string): Kind {
    if StartsWith(line, '-') && !("---" <= line) then Removed
    else if StartsWith(line, '+') && !("+++" <= line) then Added
    else if StartsWith(line, ' ') || line == "\n" then Context
    else if StartsWith(line, '\\') then Note
    else Junk
  }

  function OnOldSide(k: Kind): nat {
    if k == Removed || k == Context then 1 else 0
  }

  function OnNewSide(k: Kind): nat {
    if k == Added || k == Context then 1 else 0
  }

  function OldCount(body: seq<string>): nat {
    if body == [] then 0 else OnOldSide(KindOf(body[0])) + OldCount(body[1..])
  }

  function NewCount(body: seq<string>): nat {
    if body == [] then 0 else OnNewSide(KindOf(body[0])) + NewCount(body[1..])
  }

  /** How many lines come before the next `@@` or `---`. */
  function BodyLength(lines: seq<string>): (n: nat)
    ensures n <= |lines|
    ensures forall i :: 0 <= i < n ==> !EndsBody(lines[i])
    ensures n < |lines| ==> EndsBody(lines[n])
  {
    if lines == [] || EndsBody(lines[0]) then 0 else 1 + BodyLength(lines[1..])
  }

  function Recount(h: Header, body: seq<string>): Header {
    Header(h.oldStart, OldCount(body), h.newStart, NewCount(body))
  }

  // ---- the repair ----------------------------------------------------------

  function Repair(lines: seq<string>): (out: seq<string>)
    decreases |lines|
  {
    if lines == [] then []
    else
      match ParseHeader(lines[0])
      case None => [lines[0]] + Repair(lines[1..])
      case Some(h) =>
        var n := BodyLength(lines[1..]);
        var body := lines[1..][..n];
        [Render(Recount(h, body))] + body + Repair(lines[1..][n..])
  }

  lemma {:induction false} CountsAppend(a: seq<string>, b: seq<string>)
    ensures OldCount(a + b) == OldCount(a) + OldCount(b)
    ensures NewCount(a + b) == NewCount(a) + NewCount(b)
  {
    if a == [] {
      assert a + b == b;
    } else {
      assert (a + b)[1..] == a[1..] + b;
      CountsAppend(a[1..], b);
    }
  }

  lemma BodyLengthIs(lines: seq<string>, n: nat)
    requires n <= |lines| && (forall i :: 0 <= i < n ==> !EndsBody(lines[i]))
    requires n < |lines| ==> EndsBody(lines[n])
    ensures BodyLength(lines) == n
  {
  }

  method CountBody(body: seq<string>) returns (oldCount: nat, newCount: nat)
    ensures oldCount == OldCount(body) && newCount == NewCount(body)
  {
    oldCount, newCount := 0, 0;
    for k := 0 to |body|
      invariant oldCount == OldCount(body[..k]) && newCount == NewCount(body[..k])
    {
      var line := body[k];
      if StartsWith(line, '-') && !("---" <= line) {
        oldCount := oldCount + 1;
      } else if StartsWith(line, '+') && !("+++" <= line) {
        newCount := newCount + 1;
      } else if StartsWith(line, ' ') || line == "\n" {
        oldCount := oldCount + 1;
        newCount := newCount + 1;
      }
      assert body[..k + 1] == body[..k] + [line];
      CountsAppend(body[..k], [line]);
    }
    assert body[..|body|] == body;
  }

  predicate IsBody(body: seq<string>) {
    forall i :: 0 <= i < |body| ==> !EndsBody(body[i])
  }

  /** What follows a body: nothing, or a line that ends bodies. */
  predicate Follows(rest: seq<string>) {
    rest == [] || EndsBody(rest[0])
  }

  lemma RepairHunk(line: string, h: Header, body: seq<string>, rest: seq<string>)
    requires ParseHeader(line) == Some(h) && IsBody(body) && Follows(rest)
    ensures Repair([line] + (body + rest)) == [Render(Recount(h, body))] + body + Repair(rest)
    ensures BodyLength(body + rest) == |body|
  {
    BodyLengthIs(body + rest, |body|);
    assert (body + rest)[..|body|] == body && (body + rest)[|body|..] == rest;
    assert ([line] + (body + rest))[1..] == body + rest;
  }

  lemma RepairOther(line: string, rest: seq<string>)
    requires ParseHeader(line).None?
    ensures Repair([line] + rest) == [line] + Repair(rest)
  {
    assert ([line] + rest)[1..] == rest;
  }

  lemma NextLine(lines: seq<string>, i: nat, out: seq<string>)
    requires i < |lines| && ParseHeader(lines[i]).None?
    ensures (out + [lines[i]]) + Repair(lines[i + 1..]) == out + Repair(lines[i..])
  {
    assert lines[i..] == [lines[i]] + lines[i + 1..];
    RepairOther(lines[i], lines[i + 1..]);
    Regroup(out, [lines[i]], Repair(lines[i + 1..]));
  }

  lemma NextHunk(lines: seq<string>, i: nat, end: nat, out: seq<string>)
    requires i < end <= |lines| && ParseHeader(lines[i]).Some?
    requires IsBody(lines[i + 1..end]) && Follows(lines[end..])
    ensures var body := lines[i + 1..end];
            (out + ([Render(Recount(ParseHeader(lines[i]).value, body))] + body)) + Repair(lines[end..])
            == out + Repair(lines[i..])
  {
    var h, body := ParseHeader(lines[i]).value, lines[i + 1..end];
    assert lines[i..] == [lines[i]] + (body + lines[end..]);
    RepairHunk(lines[i], h, body, lines[end..]);
    Regroup(out, [Render(Recount(h, body))] + body, Repair(lines[end..]));
  }

  /** Scan forward to the next `@@` or `---`, or the end. */
  method FindBodyEnd(lines: seq<string>, bodyStart: nat) returns (bodyEnd: nat)
    requires bodyStart <= |lines|
    ensures bodyStart <= bodyEnd <= |lines|
    ensures IsBody(lines[bodyStart..bodyEnd]) && Follows(lines[bodyEnd..])
  {
    bodyEnd := bodyStart;
    while bodyEnd < |lines| && !("@@" <= lines[bodyEnd] || "---" <= lines[bodyEnd])
      invariant bodyStart <= bodyEnd <= |lines|
      invariant forall j :: bodyStart <= j < bodyEnd ==> !EndsBody(lines[j])
    {
      bodyEnd := bodyEnd + 1;
    }
  }

  method RepairHunkCounts(lines: seq<string>) returns (out: seq<string>)
    ensures out == Repair(lines)
  {
    out := [];
    var i := 0;
    while i < |lines|
      invariant 0 <= i <= |lines|
      invariant out + Repair(lines[i..]) == Repair(lines)
    {
      var m := ParseHeader(lines[i]);
      if m.None? {
        NextLine(lines, i, out);
        out := out + [lines[i]];
        i := i + 1;
      } else {
        var bodyEnd := FindBodyEnd(lines, i + 1);
        var body := lines[i + 1..bodyEnd];
        NextHunk(lines, i, bodyEnd, out);
        var oldCount, newCount := CountBody(body);
        out := out + ([Render(Header(m.value.oldStart, oldCount, m.value.newStart, newCount))] + body);
        i := bodyEnd;
      }
    }
    assert lines[i..] == [];
  }

  lemma Behead(body: seq<string>, rest: seq<string>)
    requires body != []
    ensures (body + rest)[0] == body[0] && (body + rest)[1..] == body[1..] + rest
  {
  }

  predicate NoHeaders(lines: seq<string>) {
    lines == [] || (ParseHeader(lines[0]).None? && NoHeaders(lines[1..]))
  }

  lemma {:induction false} CopiedThrough(lines: seq<string>, rest: seq<string>)
    requires NoHeaders(lines)
    ensures Repair(lines + rest) == lines + Repair(rest)
  {
    if lines == [] {
      assert lines + rest == rest && lines + Repair(rest) == Repair(rest);
    } else {
      Behead(lines, rest);
      CopiedThrough(lines[1..], rest);
      assert lines == [lines[0]] + lines[1..];
      Regroup([lines[0]], lines[1..], Repair(rest));
    }
  }

  lemma {:induction false} BodyHasNoHeaders(body: seq<string>)
    requires IsBody(body)
    ensures NoHeaders(body)
  {
    if body != [] {
      if ParseHeader(body[0]).Some? {
        HeaderStartsHunk(body[0]);
      }
      BodyHasNoHeaders(body[1..]);
    }
  }

  lemma RepairHeader(line: string, h: Header, body: seq<string>, rest: seq<string>)
    requires ParseHeader(line) == Some(h) && BodyLength(body + rest) == |body|
    ensures Repair([line] + (body + rest)) == [Render(Recount(h, body))] + (body + Repair(rest))
  {
    assert ([line] + (body + rest))[1..] == body + rest;
    assert (body + rest)[..|body|] == body && (body + rest)[|body|..] == rest;
  }

  /** A header is rewritten by what follows it, and what follows is repaired by itself. */
  lemma RepairCons(line: string, h: Header, tail: seq<string>)
    requires ParseHeader(line) == Some(h)
    ensures Repair([line] + tail) == [Render(Recount(h, tail[..BodyLength(tail)]))] + Repair(tail)
  {
    var n := BodyLength(tail);
    assert tail == tail[..n] + tail[n..];
    RepairHeader(line, h, tail[..n], tail[n..]);
    BodyHasNoHeaders(tail[..n]);
    CopiedThrough(tail[..n], tail[n..]);
  }

  // ---- what the repair keeps, and when it changes nothing ------------------

  /** The header a line list holds at i, recounted. */
  function Recounted(lines: seq<string>, i: nat): Header
    requires i < |lines| && ParseHeader(lines[i]).Some?
  {
    var tail := lines[i + 1..];
    Recount(ParseHeader(lines[i]).value, tail[..BodyLength(tail)])
  }

  /** What the repair leaves at line i. */
  function RepairedLine(lines: seq<string>, i: nat): string
    requires i < |lines|
  {
    if ParseHeader(lines[i]).None? then lines[i] else Render(Recounted(lines, i))
  }

  lemma BodyHoldsNoHeader(lines: seq<string>, i: nat)
    requires i < BodyLength(lines)
    ensures ParseHeader(lines[i]).None?
  {
    if ParseHeader(lines[i]).Some? {
      HeaderStartsHunk(lines[i]);
    }
  }

  lemma FirstRepaired(lines: seq<string>)
    requires lines != []
    ensures Repair(lines) == [RepairedLine(lines, 0)] + Repair(lines[1..])
  {
    assert lines == [lines[0]] + lines[1..];
    if ParseHeader(lines[0]).Some? {
      RepairCons(lines[0], ParseHeader(lines[0]).value, lines[1..]);
    }
  }

  /** Line by line: headers keep their starts and get true counts, all other lines stay where they are. */
  lemma {:induction false} RepairLineByLine(lines: seq<string>)
    ensures |Repair(lines)| == |lines|
    ensures forall i :: 0 <= i < |lines| ==> Repair(lines)[i] == RepairedLine(lines, i)
    decreases |lines|
  {
    if lines != [] {
      FirstRepaired(lines);
      RepairLineByLine(lines[1..]);
      forall i | 0 <= i < |lines|
        ensures Repair(lines)[i] == RepairedLine(lines, i)
      {
        if i > 0 {
          RepairedLineShifts(lines, 1, i - 1);
        }
      }
    }
  }

  lemma RepairedLineShifts(lines: seq<string>, d: nat, i: nat)
    requires d + i < |lines|
    ensures RepairedLine(lines[d..], i) == RepairedLine(lines, d + i)
  {
    assert lines[d..][i + 1..] == lines[d + i + 1..];
  }

  /** A header with true counts, spelled as the repair spells it. */
  predicate TrueHeader(lines: seq<string>, i: nat)
    requires i < |lines| && ParseHeader(lines[i]).Some?
  {
    lines[i] == Render(Recounted(lines, i))
  }

  /** Exactly the diffs with canonical, correctly counted headers are left as they are. */
  lemma RepairFixpointIff(lines: seq<string>)
    ensures Repair(lines) == lines <==>
            forall i :: 0 <= i < |lines| && ParseHeader(lines[i]).Some? ==> TrueHeader(lines, i)
  {
    RepairLineByLine(lines);
    if forall i :: 0 <= i < |lines| && ParseHeader(lines[i]).Some? ==> TrueHeader(lines, i) {
      assert forall i :: 0 <= i < |lines| ==> Repair(lines)[i] == lines[i];
    }
  }

  lemma RepairKeepsEnds(lines: seq<string>, i: nat)
    requires i < |lines|
    ensures EndsBody(RepairedLine(lines, i)) <==> EndsBody(lines[i])
    ensures ParseHeader(RepairedLine(lines, i)).Some? <==> ParseHeader(lines[i]).Some?
  {
    if ParseHeader(lines[i]).Some? {
      HeaderStartsHunk(lines[i]);
      ParseRendered(Recounted(lines, i));
    }
  }

  lemma SameBodyLength(tail: seq<string>, out: seq<string>)
    requires |tail| == |out|
    requires forall j :: 0 <= j < |tail| ==> (EndsBody(out[j]) <==> EndsBody(tail[j]))
    ensures BodyLength(out) == BodyLength(tail)
  {
    BodyLengthIs(out, BodyLength(tail));
  }

  lemma RepairKeepsBodies(lines: seq<string>, i: nat)
    requires i < |lines|
    ensures |Repair(lines)| == |lines|
    ensures BodyLength(Repair(lines)[i + 1..]) == BodyLength(lines[i + 1..])
    ensures var n := BodyLength(lines[i + 1..]); Repair(lines)[i + 1..][..n] == lines[i + 1..][..n]
  {
    RepairLineByLine(lines);
    var tail, out := lines[i + 1..], Repair(lines)[i + 1..];
    forall j | 0 <= j < |tail|
      ensures EndsBody(out[j]) <==> EndsBody(tail[j])
    {
      RepairKeepsEnds(lines, i + 1 + j);
    }
    SameBodyLength(tail, out);
    forall j | 0 <= j < BodyLength(tail)
      ensures out[j] == tail[j]
    {
      BodyHoldsNoHeader(tail, j);
    }
  }

  /** Repairing twice is repairing once, on every list of lines. */
  lemma RepairIdempotent(lines: seq<string>)
    ensures Repair(Repair(lines)) == Repair(lines)
  {
    var out := Repair(lines);
    RepairLineByLine(lines);
    forall i | 0 <= i < |out| && ParseHeader(out[i]).Some?
      ensures TrueHeader(out, i)
    {
      RepairKeepsEnds(lines, i);
      ParseRendered(Recounted(lines, i));
      RepairKeepsBodies(lines, i);
    }
    RepairFixpointIff(out);
  }

  // ---- a reader that trusts the counts -------------------------------------

  function Notes(lines: seq<string>): (k: nat)
    ensures k <= |lines|
  {
    if lines != [] && StartsWith(lines[0], '\\') then 1 + Notes(lines[1..]) else 0
  }

  /** What a reader takes a line for: it looks at the first character only. */
  function ReadKind(line: string): Kind {
    if StartsWith(line, '-') then Removed
    else if StartsWith(line, '+') then Added
    else if StartsWith(line, ' ') || line == "\n" then Context
    else if StartsWith(line, '\\') then Note
    else Junk
  }

  /** On the lines of a body, repair and reader differ only about `+++`. */
  lemma KindsAgree(line: string)
    requires !EndsBody(line)
    ensures ReadKind(line) == KindOf(line) || (ReadKind(line) == Added && KindOf(line) == Junk)
  {
  }

  /**
   * How many lines a hunk of `o` old and `n` new lines takes; None for a line that
   * has no place in it.  Notes after the last line still belong to the hunk.
   */
  function ReadHunk(lines: seq<string>, o: nat, n: nat): (k: Option<nat>)
    ensures k.Some? ==> k.value <= |lines|
    decreases |lines|
  {
    if o == 0 && n == 0 then Some(Notes(lines))
    else if lines == [] then None
    else
      var kind := ReadKind(lines[0]);
      if kind == Junk || OnOldSide(kind) > o || OnNewSide(kind) > n then None
      else
        match ReadHunk(lines[1..], o - OnOldSide(kind), n - OnNewSide(kind))
        case None => None
        case Some(k) => Some(1 + k)
  }

  datatype Hunk = Hunk(header: Header, body: seq<string>)

  function ReadDiff(lines: seq<string>): Option<seq<Hunk>>
    decreases |lines|
  {
    if lines == [] then Some([])
    else
      match ParseHeader(lines[0])
      case None => ReadDiff(lines[1..])
      case Some(h) =>
        match ReadHunk(lines[1..], h.oldCount, h.newCount)
        case None => None
        case Some(k) =>
          match ReadDiff(lines[1..][k..])
          case None => None
          case Some(hunks) => Some([Hunk(h, lines[1..][..k])] + hunks)
  }

  /** The lines of a body up to the first one that belongs to no hunk. */
  function HunkLines(body: seq<string>): (k: nat)
    ensures k <= |body|
  {
    if body == [] || KindOf(body[0]) == Junk then 0 else 1 + HunkLines(body[1..])
  }

  predicate Uncounted(lines: seq<string>) {
    OldCount(lines) == 0 && NewCount(lines) == 0
  }

  /** No counted line comes after a junk line. */
  predicate WellShaped(body: seq<string>) {
    Uncounted(body[HunkLines(body)..])
  }

  lemma {:induction false} NotesAreHunkLines(body: seq<string>, rest: seq<string>)
    requires IsBody(body) && Follows(rest) && Uncounted(body)
    ensures Notes(body + rest) == HunkLines(body)
  {
    if body == [] {
      assert body + rest == rest;
      if rest != [] {
        EndStarts(rest[0]);
      }
    } else {
      Behead(body, rest);
      NotesAreHunkLines(body[1..], rest);
    }
  }

  lemma WellShapedTail(body: seq<string>)
    requires body != [] && WellShaped(body) && !Uncounted(body)
    ensures KindOf(body[0]) != Junk && WellShaped(body[1..])
  {
    assert body[0..] == body;
    if KindOf(body[0]) != Junk {
      assert body[1..][HunkLines(body[1..])..] == body[HunkLines(body)..];
    }
  }

  /** A well-shaped body is read back whole. */
  lemma {:induction false} WellShapedReads(body: seq<string>, rest: seq<string>)
    requires IsBody(body) && Follows(rest) && WellShaped(body)
    ensures ReadHunk(body + rest, OldCount(body), NewCount(body)) == Some(HunkLines(body))
  {
    if Uncounted(body) {
      NotesAreHunkLines(body, rest);
    } else {
      WellShapedTail(body);
      Behead(body, rest);
      KindsAgree(body[0]);
      WellShapedReads(body[1..], rest);
    }
  }

  /** The reader stops inside the body, before some counted line, or fails. */
  predicate CutShort(body: seq<string>, k: Option<nat>) {
    k.Some? ==> k.value <= |body| && !Uncounted(body[k.value..])
  }

  lemma CutShortTail(body: seq<string>, k: nat)
    requires body != [] && CutShort(body[1..], Some(k))
    ensures CutShort(body, Some(1 + k))
  {
    assert body[1 + k..] == body[1..][k..];
  }

  lemma {:induction false} NotesLeaveLines(body: seq<string>, rest: seq<string>)
    requires IsBody(body) && !Uncounted(body)
    ensures CutShort(body, Some(Notes(body + rest)))
  {
    Behead(body, rest);
    if StartsWith(body[0], '\\') {
      NotesLeaveLines(body[1..], rest);
      CutShortTail(body, Notes(body[1..] + rest));
    } else {
      assert body[0..] == body;
    }
  }

  lemma CutShortCons(body: seq<string>, rest: seq<string>, o: nat, n: nat)
    requires body != [] && o + n > 0
    requires var kind := ReadKind(body[0]);
             kind != Junk && OnOldSide(kind) <= o && OnNewSide(kind) <= n ==>
               CutShort(body[1..], ReadHunk(body[1..] + rest, o - OnOldSide(kind), n - OnNewSide(kind)))
    ensures CutShort(body, ReadHunk(body + rest, o, n))
  {
    Behead(body, rest);
    var kind := ReadKind(body[0]);
    if kind != Junk && OnOldSide(kind) <= o && OnNewSide(kind) <= n {
      var k := ReadHunk(body[1..] + rest, o - OnOldSide(kind), n - OnNewSide(kind));
      if k.Some? {
        CutShortTail(body, k.value);
      }
    }
  }

  /** With fewer lines announced than counted, the reader fails or leaves counted lines behind. */
  lemma {:induction false} ShortCountIsCutShort(body: seq<string>, rest: seq<string>, o: nat, n: nat)
    requires IsBody(body)
    requires o <= OldCount(body) && n <= NewCount(body) && o + n < OldCount(body) + NewCount(body)
    ensures CutShort(body, ReadHunk(body + rest, o, n))
  {
    if o == 0 && n == 0 {
      NotesLeaveLines(body, rest);
    } else {
      KindsAgree(body[0]);
      var kind := ReadKind(body[0]);
      if kind != Junk && OnOldSide(kind) <= o && OnNewSide(kind) <= n {
        ShortCountIsCutShort(body[1..], rest, o - OnOldSide(kind), n - OnNewSide(kind));
      }
      CutShortCons(body, rest, o, n);
    }
  }

  /** A counted line after junk is never reached. */
  lemma {:induction false} IllShapedIsCutShort(body: seq<string>, rest: seq<string>)
    requires IsBody(body) && !WellShaped(body)
    ensures CutShort(body, ReadHunk(body + rest, OldCount(body), NewCount(body)))
  {
    var o, n := OldCount(body), NewCount(body);
    IllShapedCounts(body);
    KindsAgree(body[0]);
    var kind := ReadKind(body[0]);
    if kind != Junk && OnOldSide(kind) <= o && OnNewSide(kind) <= n {
      if KindOf(body[0]) == Junk {
        ShortCountIsCutShort(body[1..], rest, o - OnOldSide(kind), n - OnNewSide(kind));
      } else {
        IllShapedIsCutShort(body[1..], rest);
      }
    }
    CutShortCons(body, rest, o, n);
  }

  lemma IllShapedCounts(body: seq<string>)
    requires !WellShaped(body)
    ensures body != [] && !Uncounted(body)
    ensures KindOf(body[0]) != Junk ==> !WellShaped(body[1..])
  {
    var k := HunkLines(body);
    CountsAppend(body[..k], body[k..]);
    assert body == body[..k] + body[k..];
    if KindOf(body[0]) != Junk {
      assert body[1..][HunkLines(body[1..])..] == body[k..];
    }
  }

  /** Exactly the well-shaped bodies are read back with all their counted lines. */
  lemma ReadsBackIff(body: seq<string>, rest: seq<string>)
    requires IsBody(body) && Follows(rest)
    ensures (match ReadHunk(body + rest, OldCount(body), NewCount(body))
             case None => false
             case Some(k) => k <= |body| && Uncounted(body[k..]))
            <==> WellShaped(body)
  {
    if WellShaped(body) {
      WellShapedReads(body, rest);
    } else {
      IllShapedIsCutShort(body, rest);
    }
  }

  /** The hunks of a line list as the repair sees them: true headers over the lines they count. */
  function Hunks(lines: seq<string>): seq<Hunk>
    decreases |lines|
  {
    if lines == [] then []
    else
      match ParseHeader(lines[0])
      case None => Hunks(lines[1..])
      case Some(h) =>
        var n := BodyLength(lines[1..]);
        var body := lines[1..][..n];
        [Hunk(Recount(h, body), body[..HunkLines(body)])] + Hunks(lines[1..][n..])
  }

  predicate AllWellShaped(lines: seq<string>)
    decreases |lines|
  {
    lines == [] ||
    match ParseHeader(lines[0])
    case None => AllWellShaped(lines[1..])
    case Some(h) =>
      var n := BodyLength(lines[1..]);
      WellShaped(lines[1..][..n]) && AllWellShaped(lines[1..][n..])
  }

  lemma {:induction false} SkipLines(lines: seq<string>, rest: seq<string>)
    requires NoHeaders(lines)
    ensures ReadDiff(lines + rest) == ReadDiff(rest)
  {
    if lines == [] {
      assert lines + rest == rest;
    } else {
      assert (lines + rest)[1..] == lines[1..] + rest;
      SkipLines(lines[1..], rest);
    }
  }

  lemma RepairedFollows(lines: seq<string>)
    requires Follows(lines)
    ensures Follows(Repair(lines))
  {
    RepairLineByLine(lines);
    if lines != [] {
      RepairKeepsEnds(lines, 0);
    }
  }

  lemma BodySkipped(body: seq<string>, k: nat, rest: seq<string>)
    requires IsBody(body) && k <= |body|
    ensures (body + rest)[..k] == body[..k]
    ensures ReadDiff((body + rest)[k..]) == ReadDiff(rest)
  {
    BodyHasNoHeaders(body[k..]);
    SkipLines(body[k..], rest);
    assert (body + rest)[k..] == body[k..] + rest;
  }

  lemma ReadHeader(line: string, h: Header, tail: seq<string>, k: nat)
    requires ParseHeader(line) == Some(h)
    requires ReadHunk(tail, h.oldCount, h.newCount) == Some(k) && k <= |tail| && ReadDiff(tail[k..]).Some?
    ensures ReadDiff([line] + tail) == Some([Hunk(h, tail[..k])] + ReadDiff(tail[k..]).value)
  {
    assert ([line] + tail)[1..] == tail;
  }

  lemma ReadOneHunk(h: Header, body: seq<string>, rest: seq<string>)
    requires IsBody(body) && WellShaped(body) && Follows(rest) && ReadDiff(rest).Some?
    ensures ReadDiff([Render(Recount(h, body))] + (body + rest)) ==
            Some([Hunk(Recount(h, body), body[..HunkLines(body)])] + ReadDiff(rest).value)
  {
    var k := HunkLines(body);
    ParseRendered(Recount(h, body));
    WellShapedReads(body, rest);
    BodySkipped(body, k, rest);
    ReadHeader(Render(Recount(h, body)), Recount(h, body), body + rest, k);
  }

  /**
   * A reader that trusts header counts splits the repaired diff into exactly the
   * original hunk bodies, under headers that announce their lengths.
   */
  lemma {:induction false} RepairedDiffReads(lines: seq<string>)
    requires AllWellShaped(lines)
    ensures ReadDiff(Repair(lines)) == Some(Hunks(lines))
    decreases |lines|
  {
    if lines != [] {
      match ParseHeader(lines[0])
      case None =>
        RepairedDiffReads(lines[1..]);
        assert Repair(lines)[1..] == Repair(lines[1..]);
      case Some(h) =>
        var n := BodyLength(lines[1..]);
        var body, rest := lines[1..][..n], lines[1..][n..];
        RepairedDiffReads(rest);
        RepairedFollows(rest);
        ReadOneHunk(h, body, Repair(rest));
        assert Repair(lines) == [Render(Recount(h, body))] + (body + Repair(rest));
    }
  }

  /** A body of only counted lines and notes is well shaped, and all of it belongs to the hunk. */
  lemma {:induction false} PlainBody(body: seq<string>)
    requires forall i :: 0 <= i < |body| ==> KindOf(body[i]) != Junk
    ensures HunkLines(body) == |body| && WellShaped(body)
  {
    if body != [] {
      PlainBody(body[1..]);
    }
    assert HunkLines(body) == |body| ==> body[HunkLines(body)..] == [];
  }

  // ---- what the repair does to a diff that could be read --------------------

  /** A removed line whose text starts with `--`, or an added one whose text starts with `++`. */
  predicate Disputed(line: string) {
    "---" <= line || "+++" <= line
  }

  /** The sides of a body as the reader counts them. */
  function ReadOld(body: seq<string>): nat {
    if body == [] then 0 else OnOldSide(ReadKind(body[0])) + ReadOld(body[1..])
  }

  function ReadNew(body: seq<string>): nat {
    if body == [] then 0 else OnNewSide(ReadKind(body[0])) + ReadNew(body[1..])
  }

  /** Every line has a place in a hunk. */
  predicate Readable(body: seq<string>) {
    body == [] || (ReadKind(body[0]) != Junk && Readable(body[1..]))
  }

  /** On a readable line repair and reader differ exactly when it is disputed; then the repair misses a side. */
  lemma DisputedIff(line: string)
    requires ReadKind(line) != Junk
    ensures EndsBody(line) <==> "---" <= line
    ensures !Disputed(line) ==> KindOf(line) == ReadKind(line)
    ensures "---" <= line ==> ReadKind(line) == Removed && KindOf(line) == Junk
    ensures "+++" <= line ==> ReadKind(line) == Added && KindOf(line) == Junk
  {
    FirstChar("---", line);
    FirstChar("+++", line);
    FirstChar("@@", line);
  }

  lemma FirstChar(prefix: string, line: string)
    requires prefix != ""
    ensures prefix <= line ==> StartsWith(line, prefix[0])
  {
    if prefix <= line {
      assert line[..|prefix|][0] == line[0];
    }
  }

  lemma HeaderIsJunk(line: string)
    ensures ParseHeader(line).Some? ==> ReadKind(line) == Junk
  {
    FirstChar("@@ -", line);
  }

  lemma {:induction false} NotesAreReadable(lines: seq<string>)
    ensures Readable(lines[..Notes(lines)])
    ensures ReadOld(lines[..Notes(lines)]) == 0 == ReadNew(lines[..Notes(lines)])
  {
    if lines != [] && StartsWith(lines[0], '\\') {
      var k := Notes(lines[1..]);
      NotesAreReadable(lines[1..]);
      assert lines[..k + 1][1..] == lines[1..][..k];
    }
  }

  /** What the reader takes for a hunk has the sizes it was told, line by line. */
  lemma {:induction false} ReadHunkCounts(lines: seq<string>, o: nat, n: nat)
    requires ReadHunk(lines, o, n).Some?
    ensures var body := lines[..ReadHunk(lines, o, n).value];
            Readable(body) && ReadOld(body) == o && ReadNew(body) == n
    decreases |lines|
  {
    if o == 0 && n == 0 {
      NotesAreReadable(lines);
    } else {
      var kind := ReadKind(lines[0]);
      var o', n' := o - OnOldSide(kind), n - OnNewSide(kind);
      ReadHunkCounts(lines[1..], o', n');
      var k := ReadHunk(lines[1..], o', n').value;
      assert lines[..k + 1][1..] == lines[1..][..k];
    }
  }

  lemma {:induction false} NotesElsewhere(body: seq<string>, rest: seq<string>, rest': seq<string>)
    requires Notes(body + rest) == |body|
    ensures rest == [] || !StartsWith(rest[0], '\\')
    ensures rest' == [] || !StartsWith(rest'[0], '\\') ==> Notes(body + rest') == |body|
  {
    if body == [] {
      assert body + rest == rest && body + rest' == rest';
    } else {
      Behead(body, rest);
      Behead(body, rest');
      NotesElsewhere(body[1..], rest, rest');
    }
  }

  /** A hunk is read alike whatever follows it, as long as that is no note. */
  lemma {:induction false} ReadElsewhere(body: seq<string>, rest: seq<string>, rest': seq<string>, o: nat, n: nat)
    requires ReadHunk(body + rest, o, n) == Some(|body|)
    ensures rest == [] || !StartsWith(rest[0], '\\')
    ensures rest' == [] || !StartsWith(rest'[0], '\\') ==> ReadHunk(body + rest', o, n) == Some(|body|)
  {
    if o == 0 && n == 0 {
      NotesElsewhere(body, rest, rest');
    } else {
      assert body != [];
      Behead(body, rest);
      Behead(body, rest');
      var kind := ReadKind(body[0]);
      ReadElsewhere(body[1..], rest, rest', o - OnOldSide(kind), n - OnNewSide(kind));
    }
  }

  lemma {:induction false} ReadableHasNoHeaders(body: seq<string>)
    requires Readable(body)
    ensures NoHeaders(body)
  {
    if body != [] {
      HeaderIsJunk(body[0]);
      ReadableHasNoHeaders(body[1..]);
    }
  }

  /** The counts that the repair writes over a hunk are those that were there. */
  predicate CountsKept(h: Header, tail: seq<string>) {
    Recount(h, tail[..BodyLength(tail)]) == h
  }

  predicate AllCountsKept(lines: seq<string>)
    decreases |lines|
  {
    lines == [] ||
    match ParseHeader(lines[0])
    case None => AllCountsKept(lines[1..])
    case Some(h) =>
      match ReadHunk(lines[1..], h.oldCount, h.newCount)
      case None => false
      case Some(k) => CountsKept(h, lines[1..]) && AllCountsKept(lines[1..][k..])
  }

  function Bodies(hunks: seq<Hunk>): seq<seq<string>> {
    if hunks == [] then [] else [hunks[0].body] + Bodies(hunks[1..])
  }

  predicate SameBodies(before: Option<seq<Hunk>>, after: Option<seq<Hunk>>) {
    before.Some? && after.Some? && Bodies(before.value) == Bodies(after.value)
  }

  lemma BodiesCons(h: Hunk, hunks: seq<Hunk>)
    ensures Bodies([h] + hunks) == [h.body] + Bodies(hunks)
  {
    assert ([h] + hunks)[1..] == hunks;
  }

  /** A hunk and then the others. */
  lemma ReadCons(line: string, h: Header, body: seq<string>, rest: seq<string>)
    requires ParseHeader(line) == Some(h) && ReadHunk(body + rest, h.oldCount, h.newCount) == Some(|body|)
    ensures ReadDiff([line] + (body + rest)) ==
            match ReadDiff(rest)
            case None => None
            case Some(hunks) => Some([Hunk(h, body)] + hunks)
  {
    assert ([line] + (body + rest))[1..] == body + rest;
    assert (body + rest)[..|body|] == body && (body + rest)[|body|..] == rest;
  }

  lemma RepairStartsWithNoNote(rest: seq<string>)
    requires rest == [] || !StartsWith(rest[0], '\\')
    ensures Repair(rest) == [] || !StartsWith(Repair(rest)[0], '\\')
  {
    if rest != [] && ParseHeader(rest[0]).Some? {
      var h := Recount(ParseHeader(rest[0]).value, rest[1..][..BodyLength(rest[1..])]);
      ParseRendered(h);
      assert Render(h)[0] == "@@"[0];
    }
  }

  /** With its counts kept a hunk is read as before. */
  lemma KeptHunk(line: string, h: Header, body: seq<string>, rest: seq<string>)
    requires ParseHeader(line) == Some(h) && ReadHunk(body + rest, h.oldCount, h.newCount) == Some(|body|)
    requires CountsKept(h, body + rest)
    ensures ReadDiff(Repair([line] + (body + rest))) ==
            match ReadDiff(Repair(rest))
            case None => None
            case Some(hunks) => Some([Hunk(h, body)] + hunks)
  {
    ReadHunkCounts(body + rest, h.oldCount, h.newCount);
    assert (body + rest)[..|body|] == body;
    ReadableHasNoHeaders(body);
    CopiedThrough(body, rest);
    RepairCons(line, h, body + rest);
    ReadElsewhere(body, rest, Repair(rest), h.oldCount, h.newCount);
    RepairStartsWithNoNote(rest);
    ParseRendered(h);
    ReadCons(Render(h), h, body, Repair(rest));
  }

  /** With other counts another body is read, or none. */
  lemma ChangedHunk(line: string, h: Header, body: seq<string>, rest: seq<string>)
    requires ParseHeader(line) == Some(h) && ReadHunk(body + rest, h.oldCount, h.newCount) == Some(|body|)
    requires !CountsKept(h, body + rest)
    ensures var after := ReadDiff(Repair([line] + (body + rest)));
            after.Some? ==> after.value != [] && after.value[0].body != body
  {
    var tail := body + rest;
    var h' := Recount(h, tail[..BodyLength(tail)]);
    var lines := [Render(h')] + Repair(tail);
    ReadHunkCounts(tail, h.oldCount, h.newCount);
    assert tail[..|body|] == body;
    RepairCons(line, h, tail);
    ParseRendered(h');
    assert lines[1..] == Repair(tail);
    if ReadDiff(lines).Some? {
      ReadHunkCounts(Repair(tail), h'.oldCount, h'.newCount);
    }
  }

  lemma CutHunk(lines: seq<string>, h: Header, k: nat) returns (body: seq<string>, rest: seq<string>)
    requires lines != [] && ReadHunk(lines[1..], h.oldCount, h.newCount) == Some(k)
    ensures lines == [lines[0]] + (body + rest) && lines[1..] == body + rest && rest == lines[1..][k..]
    ensures body == lines[1..][..k] && |body| == k
  {
    body, rest := lines[1..][..k], lines[1..][k..];
  }

  lemma SkipOne(lines: seq<string>)
    requires lines != [] && ParseHeader(lines[0]).None?
    ensures ReadDiff(lines) == ReadDiff(lines[1..]) && ReadDiff(Repair(lines)) == ReadDiff(Repair(lines[1..]))
  {
    assert Repair(lines)[1..] == Repair(lines[1..]);
  }

  /** What the theorem says of one list of lines. */
  ghost predicate ReadingKept(lines: seq<string>) {
    (SameBodies(ReadDiff(lines), ReadDiff(Repair(lines))) <==> AllCountsKept(lines)) &&
    (AllCountsKept(lines) ==> ReadDiff(Repair(lines)) == ReadDiff(lines))
  }

  lemma AllKeptCons(line: string, h: Header, body: seq<string>, rest: seq<string>)
    requires ParseHeader(line) == Some(h) && ReadHunk(body + rest, h.oldCount, h.newCount) == Some(|body|)
    ensures AllCountsKept([line] + (body + rest)) <==> CountsKept(h, body + rest) && AllCountsKept(rest)
  {
    assert ([line] + (body + rest))[1..] == body + rest;
    assert (body + rest)[|body|..] == rest;
  }

  lemma SameBodiesCons(h: Hunk, before: seq<Hunk>, after: seq<Hunk>)
    ensures Bodies([h] + before) == Bodies([h] + after) <==> Bodies(before) == Bodies(after)
  {
    BodiesCons(h, before);
    BodiesCons(h, after);
    assert ([h.body] + Bodies(before))[1..] == Bodies(before) && ([h.body] + Bodies(after))[1..] == Bodies(after);
  }

  lemma KeptStep(line: string, h: Header, body: seq<string>, rest: seq<string>)
    requires ParseHeader(line) == Some(h) && ReadHunk(body + rest, h.oldCount, h.newCount) == Some(|body|)
    requires ReadDiff(rest).Some? && ReadingKept(rest) && CountsKept(h, body + rest)
    ensures ReadingKept([line] + (body + rest))
  {
    ReadCons(line, h, body, rest);
    KeptHunk(line, h, body, rest);
    AllKeptCons(line, h, body, rest);
    if ReadDiff(Repair(rest)).Some? {
      SameBodiesCons(Hunk(h, body), ReadDiff(rest).value, ReadDiff(Repair(rest)).value);
    }
  }

  lemma FirstBody(hunks: seq<Hunk>)
    requires hunks != []
    ensures Bodies(hunks) != [] && Bodies(hunks)[0] == hunks[0].body
  {
  }

  lemma ChangedStep(line: string, h: Header, body: seq<string>, rest: seq<string>)
    requires ParseHeader(line) == Some(h) && ReadHunk(body + rest, h.oldCount, h.newCount) == Some(|body|)
    requires ReadDiff(rest).Some? && !CountsKept(h, body + rest)
    ensures ReadingKept([line] + (body + rest))
  {
    var after := ReadDiff(Repair([line] + (body + rest)));
    ReadCons(line, h, body, rest);
    ChangedHunk(line, h, body, rest);
    AllKeptCons(line, h, body, rest);
    FirstBody([Hunk(h, body)] + ReadDiff(rest).value);
    if after.Some? {
      FirstBody(after.value);
    }
  }

  /**
   * Exactly when a reader that trusts the counts finds the same hunks after the repair: the repair
   * writes the counts that were there.
   */
  lemma {:induction false} ReadingKeptIff(lines: seq<string>)
    requires ReadDiff(lines).Some?
    ensures SameBodies(ReadDiff(lines), ReadDiff(Repair(lines))) <==> AllCountsKept(lines)
    ensures AllCountsKept(lines) ==> ReadDiff(Repair(lines)) == ReadDiff(lines)
    decreases |lines|
  {
    if lines != [] {
      match ParseHeader(lines[0])
      case None =>
        SkipOne(lines);
        ReadingKeptIff(lines[1..]);
      case Some(h) =>
        var body, rest := CutHunk(lines, h, ReadHunk(lines[1..], h.oldCount, h.newCount).value);
        ReadingKeptIff(rest);
        if CountsKept(h, body + rest) {
          KeptStep(lines[0], h, body, rest);
        } else {
          ChangedStep(lines[0], h, body, rest);
        }
    }
  }

  // ---- and what that means for the lines of the hunks -----------------------

  lemma {:induction false} CountsAtMost(body: seq<string>)
    requires Readable(body)
    ensures OldCount(body) <= ReadOld(body) && NewCount(body) <= ReadNew(body)
  {
    if body != [] {
      DisputedIff(body[0]);
      CountsAtMost(body[1..]);
    }
  }

  lemma {:induction false} ReadablePrefix(body: seq<string>, m: nat)
    requires Readable(body) && m <= |body|
    ensures Readable(body[..m]) && Readable(body[m..])
    ensures ReadOld(body) == ReadOld(body[..m]) + ReadOld(body[m..])
    ensures ReadNew(body) == ReadNew(body[..m]) + ReadNew(body[m..])
  {
    if m == 0 {
      assert body[0..] == body;
    } else {
      ReadablePrefix(body[1..], m - 1);
      assert body[..m][1..] == body[1..][..m - 1] && body[1..][m - 1..] == body[m..];
    }
  }

  /** A body with a removed line that starts with `---` is cut in front of it. */
  lemma CutBody(body: seq<string>, rest: seq<string>)
    requires Readable(body) && !IsBody(body)
    ensures var tail := body + rest;
            OldCount(tail[..BodyLength(tail)]) < ReadOld(body)
  {
    var tail := body + rest;
    var m := BodyLength(tail);
    var i :| 0 <= i < |body| && EndsBody(body[i]);
    assert tail[i] == body[i];
    assert m <= i && tail[..m] == body[..m] && tail[m] == body[m];
    ReadablePrefix(body, m);
    assert body[m..][0] == body[m];
    DisputedIff(body[m]);
    CountsAtMost(body[..m]);
  }

  lemma WholeBody(body: seq<string>, rest: seq<string>)
    requires IsBody(body)
    ensures BodyLength(body + rest) == |body| + BodyLength(rest)
    ensures (body + rest)[..BodyLength(body + rest)] == body + rest[..BodyLength(rest)]
  {
    var tail := body + rest;
    var n := |body| + BodyLength(rest);
    forall i | 0 <= i < n
      ensures !EndsBody(tail[i])
    {
      assert tail[i] == if i < |body| then body[i] else rest[i - |body|];
    }
    assert n < |tail| ==> tail[n] == rest[BodyLength(rest)];
    BodyLengthIs(tail, n);
  }

  /** The added lines that the repair does not count. */
  function PlusLines(body: seq<string>): nat {
    if body == [] then 0 else (if "+++" <= body[0] then 1 else 0) + PlusLines(body[1..])
  }

  lemma {:induction false} MissedByCount(body: seq<string>)
    requires Readable(body) && IsBody(body)
    ensures OldCount(body) == ReadOld(body) && NewCount(body) + PlusLines(body) == ReadNew(body)
  {
    if body != [] {
      var rest := body[1..];
      DisputedIff(body[0]);
      assert forall i :: 0 <= i < |rest| ==> rest[i] == body[i + 1];
      MissedByCount(rest);
    }
  }

  /** The lines behind a hunk that the repair counts with it. */
  function Gap(rest: seq<string>): seq<string> {
    rest[..BodyLength(rest)]
  }

  /**
   * No line of the body starts with `---`, and behind it the repair counts nothing on the old
   * side and on the new side as much as it misses in the body for starting with `+++`.
   */
  predicate Balances(body: seq<string>, gap: seq<string>) {
    (forall i :: 0 <= i < |body| ==> !("---" <= body[i])) &&
    OldCount(gap) == 0 && NewCount(gap) == PlusLines(body)
  }

  lemma {:induction false} ReadableIsBodyIff(body: seq<string>)
    requires Readable(body)
    ensures IsBody(body) <==> forall i :: 0 <= i < |body| ==> !("---" <= body[i])
  {
    if body != [] {
      var rest := body[1..];
      DisputedIff(body[0]);
      ReadableIsBodyIff(rest);
      assert body == [body[0]] + rest;
      assert IsBody(body) <==> !EndsBody(body[0]) && IsBody(rest);
    }
  }

  /** Exactly when the repair writes the counts by which a hunk is read: what it misses and what it adds make up. */
  lemma CountsKeptIff(h: Header, body: seq<string>, rest: seq<string>)
    requires ReadHunk(body + rest, h.oldCount, h.newCount) == Some(|body|)
    ensures CountsKept(h, body + rest) <==> Balances(body, Gap(rest))
  {
    ReadHunkCounts(body + rest, h.oldCount, h.newCount);
    assert (body + rest)[..|body|] == body;
    ReadableIsBodyIff(body);
    if IsBody(body) {
      MissedByCount(body);
      WholeBody(body, rest);
      CountsAppend(body, Gap(rest));
    } else {
      CutBody(body, rest);
    }
  }

  /**
   * Exactly when the reader finds a hunk again after the repair that it has taken whole by the
   * hunk's own counts: the counts balance and the rest still reads.
   */
  lemma HunkSurvivesIff(line: string, h: Header, body: seq<string>, rest: seq<string>)
    requires ParseHeader(line) == Some(h) && ReadHunk(body + rest, h.oldCount, h.newCount) == Some(|body|)
    ensures var after := ReadDiff(Repair([line] + (body + rest)));
            (after.Some? && after.value != [] && after.value[0].body == body) <==>
            Balances(body, Gap(rest)) && ReadDiff(Repair(rest)).Some?
  {
    CountsKeptIff(h, body, rest);
    if CountsKept(h, body + rest) {
      KeptHunk(line, h, body, rest);
    } else {
      ChangedHunk(line, h, body, rest);
    }
  }

  /** Every hunk that the reader takes by its own counts balances with what follows it. */
  predicate AllBalance(lines: seq<string>)
    decreases |lines|
  {
    lines == [] ||
    match ParseHeader(lines[0])
    case None => AllBalance(lines[1..])
    case Some(h) =>
      match ReadHunk(lines[1..], h.oldCount, h.newCount)
      case None => false
      case Some(k) => Balances(lines[1..][..k], Gap(lines[1..][k..])) && AllBalance(lines[1..][k..])
  }

  lemma {:induction false} AllKeptIff(lines: seq<string>)
    requires ReadDiff(lines).Some?
    ensures AllCountsKept(lines) <==> AllBalance(lines)
    decreases |lines|
  {
    if lines != [] {
      match ParseHeader(lines[0])
      case None => AllKeptIff(lines[1..]);
      case Some(h) =>
        var k := ReadHunk(lines[1..], h.oldCount, h.newCount).value;
        var body, rest := CutHunk(lines, h, k);
        CountsKeptIff(h, body, rest);
        AllKeptIff(rest);
    }
  }

  /**
   * For every diff that reads by its counts: the repair leaves every hunk's body to the reader
   * exactly when every hunk balances with the lines behind it.
   */
  lemma BodiesSurviveIff(lines: seq<string>)
    requires ReadDiff(lines).Some?
    ensures SameBodies(ReadDiff(lines), ReadDiff(Repair(lines))) <==> AllBalance(lines)
  {
    ReadingKeptIff(lines);
    AllKeptIff(lines);
  }

  /** Every header is spelled as the repair spells it. */
  predicate Spelled(lines: seq<string>) {
    forall line :: line in lines && ParseHeader(line).Some? ==> line == Render(ParseHeader(line).value)
  }

  lemma {:induction false} KeptIsFixed(lines: seq<string>)
    requires ReadDiff(lines).Some? && AllCountsKept(lines) && Spelled(lines)
    ensures Repair(lines) == lines
    decreases |lines|
  {
    if lines != [] {
      assert lines == [lines[0]] + lines[1..] && lines[0] in lines;
      match ParseHeader(lines[0])
      case None => KeptIsFixed(lines[1..]);
      case Some(h) =>
        var body, rest := CutHunk(lines, h, ReadHunk(lines[1..], h.oldCount, h.newCount).value);
        assert forall line :: line in rest ==> line in lines[1..];
        ReadHunkCounts(body + rest, h.oldCount, h.newCount);
        assert (body + rest)[..|body|] == body;
        ReadableHasNoHeaders(body);
        CopiedThrough(body, rest);
        KeptIsFixed(rest);
        RepairCons(lines[0], h, lines[1..]);
    }
  }

  lemma FixedIsSpelled(lines: seq<string>)
    requires Repair(lines) == lines
    ensures Spelled(lines)
  {
    RepairFixpointIff(lines);
    forall line | line in lines && ParseHeader(line).Some?
      ensures line == Render(ParseHeader(line).value)
    {
      var i :| 0 <= i < |lines| && lines[i] == line;
      assert TrueHeader(lines, i);
      ParseRendered(Recounted(lines, i));
    }
  }

  /** Exactly which diffs that read by their counts the repair leaves alone. */
  lemma CorrectDiffIsLeftAloneIff(lines: seq<string>)
    requires ReadDiff(lines).Some?
    ensures Repair(lines) == lines <==> AllBalance(lines) && Spelled(lines)
  {
    ReadingKeptIff(lines);
    AllKeptIff(lines);
    if Repair(lines) == lines {
      FixedIsSpelled(lines);
    } else if AllCountsKept(lines) && Spelled(lines) {
      KeptIsFixed(lines);
    }
  }

  lemma TwoLines(a: string, b: string)
    requires "---" <= a && StartsWith(b, ' ')
    ensures ReadHunk([a, b], 2, 1) == Some(2) && ReadHunk([a, b], 0, 0) == Some(0)
    ensures BodyLength([a, b]) == 0 && Readable([a, b])
  {
    FirstChar("---", a);
    assert [a, b][1..] == [b] && [b][1..] == [];
    assert Notes([]) == 0 && Notes([a, b]) == 0;
    assert ReadHunk([b], 1, 1) == Some(1);
  }

  /** A correct hunk that removes a line starting with `--` is left empty. */
  lemma MinusLineEmptiesHunk(s: nat, t: nat, a: string, b: string)
    requires "---" <= a && StartsWith(b, ' ')
    ensures ReadDiff([Render(Header(s, 2, t, 1))] + [a, b]) == Some([Hunk(Header(s, 2, t, 1), [a, b])])
    ensures Repair([Render(Header(s, 2, t, 1))] + [a, b]) == [Render(Header(s, 0, t, 0))] + [a, b]
    ensures ReadDiff([Render(Header(s, 0, t, 0))] + [a, b]) == Some([Hunk(Header(s, 0, t, 0), [])])
  {
    var body := [a, b];
    TwoLines(a, b);
    assert body + [] == body && [] + body == body;
    OneHunk(Header(s, 2, t, 1), body, []);
    OneHunk(Header(s, 0, t, 0), [], body);
    ParseRendered(Header(s, 2, t, 1));
    RepairCons(Render(Header(s, 2, t, 1)), Header(s, 2, t, 1), body);
    ReadableHasNoHeaders(body);
    CopiedThrough(body, []);
    assert body + [] == body && body[..0] == [];
  }

  lemma ContextAndSignature(a: string, b: string)
    requires StartsWith(a, ' ') && StartsWith(b, '-') && !("---" <= b)
    ensures ReadHunk([a, b], 1, 1) == Some(1) && ReadHunk([a, b], 2, 1) == Some(2)
    ensures BodyLength([a, b]) == 2 && OldCount([a, b]) == 2 && NewCount([a, b]) == 1
    ensures Readable([a, b]) && Readable([b])
  {
    FirstChar("---", a);
    FirstChar("+++", a);
    FirstChar("+++", b);
    FirstChar("@@", a);
    FirstChar("@@", b);
    assert [a, b][1..] == [b] && [b][1..] == [];
    assert Notes([]) == 0 && Notes([b]) == 0;
    assert ReadHunk([], 0, 0) == Some(0) && ReadHunk([b], 0, 0) == Some(0) && ReadHunk([b], 1, 0) == Some(1);
    BodyLengthIs([a, b], 2);
    assert KindOf(a) == Context && KindOf(b) == Removed;
    assert OldCount([b]) == 1 && NewCount([b]) == 0;
  }

  /** The signature behind a correct patch, `-- `, is taken into its last hunk. */
  lemma SignatureJoinsHunk(s: nat, t: nat, a: string, b: string)
    requires StartsWith(a, ' ') && StartsWith(b, '-') && !("---" <= b)
    ensures ReadDiff([Render(Header(s, 1, t, 1))] + [a, b]) == Some([Hunk(Header(s, 1, t, 1), [a])])
    ensures Repair([Render(Header(s, 1, t, 1))] + [a, b]) == [Render(Header(s, 2, t, 1))] + [a, b]
    ensures ReadDiff([Render(Header(s, 2, t, 1))] + [a, b]) == Some([Hunk(Header(s, 2, t, 1), [a, b])])
  {
    var body := [a, b];
    ContextAndSignature(a, b);
    assert [a] + [b] == body && body + [] == body && body[..2] == body;
    OneHunk(Header(s, 1, t, 1), [a], [b]);
    OneHunk(Header(s, 2, t, 1), body, []);
    ParseRendered(Header(s, 1, t, 1));
    RepairCons(Render(Header(s, 1, t, 1)), Header(s, 1, t, 1), body);
    ReadableHasNoHeaders(body);
    CopiedThrough(body, []);
  }

  lemma OneHunk(h: Header, body: seq<string>, rest: seq<string>)
    requires ReadHunk(body + rest, h.oldCount, h.newCount) == Some(|body|) && Readable(rest)
    ensures ReadDiff([Render(h)] + (body + rest)) == Some([Hunk(h, body)])
  {
    ParseRendered(h);
    ReadCons(Render(h), h, body, rest);
    ReadableHasNoHeaders(rest);
    SkipLines(rest, []);
    assert rest + [] == rest && [Hunk(h, body)] + [] == [Hunk(h, body)];
  }

  // ---- headers and lines, spelled out --------------------------------------

  /** A header as text, with whatever follows it. */
  function HeaderText(a: string, b: string, c: string, d: string, tail: string): string {
    "@@ -" + (a + ("," + (b + (" +" + (c + ("," + (d + (" @@" + tail))))))))
  }

  predicate IsNumber(s: string) {
    s != "" && AllDigits(s)
  }

  lemma FieldRead(s: string, literal: string) returns (digits: string)
    requires ReadField(s, literal).Some?
    ensures IsNumber(digits) && ReadField(s, literal).value.0 == DigitsValue(digits)
    ensures s == digits + (literal + ReadField(s, literal).value.1)
  {
    var k := DigitRun(s);
    digits := s[..k];
    var rest := s[k..];
    assert rest == literal + rest[|literal|..];
    assert s == digits + rest;
  }

  lemma FieldReads(digits: string, literal: string, rest: string)
    requires IsNumber(digits) && literal != "" && !IsDigit(literal[0])
    ensures ReadField(digits + (literal + rest), literal) == Some((DigitsValue(digits), rest))
  {
    var tail := literal + rest;
    DigitRunOf(digits, tail);
    assert (digits + tail)[..|digits|] == digits && (digits + tail)[|digits|..] == tail;
    assert literal <= tail && tail[|literal|..] == rest;
  }

  lemma FieldsOn(s: string, literal: string, n: nat, rest: string, literals: seq<string>, ns: seq<nat>)
    requires ReadField(s, literal) == Some((n, rest)) && ReadFields(rest, literals) == Some(ns)
    ensures ReadFields(s, [literal] + literals) == Some([n] + ns)
  {
    assert ([literal] + literals)[1..] == literals;
  }

  lemma FieldsOff(s: string, literal: string, literals: seq<string>) returns (n: nat, rest: string, ns: seq<nat>)
    requires ReadFields(s, [literal] + literals).Some?
    ensures ReadField(s, literal) == Some((n, rest)) && ReadFields(rest, literals) == Some(ns)
    ensures ReadFields(s, [literal] + literals) == Some([n] + ns)
  {
    assert ([literal] + literals)[1..] == literals;
    n, rest := ReadField(s, literal).value.0, ReadField(s, literal).value.1;
    ns := ReadFields(rest, literals).value;
  }

  /** The four numbers of a header that is read, and nothing in front or in between. */
  lemma HeaderIsText(line: string) returns (a: string, b: string, c: string, d: string, tail: string)
    requires ParseHeader(line).Some?
    ensures IsNumber(a) && IsNumber(b) && IsNumber(c) && IsNumber(d)
    ensures line == HeaderText(a, b, c, d, tail)
    ensures ParseHeader(line) == Some(Header(DigitsValue(a), DigitsValue(b), DigitsValue(c), DigitsValue(d)))
  {
    var s := line[4..];
    assert line == "@@ -" + s;
    var ns, s1, s2, s3;
    ns, s1, s2, s3, tail := FourFields(s, ",", " +", ",", " @@");
    a := FieldRead(s, ",");
    b := FieldRead(s1, " +");
    c := FieldRead(s2, ",");
    d := FieldRead(s3, " @@");
    assert LITERALS == [",", " +", ",", " @@"];
  }

  lemma TwoFieldsOff(s: string, k: string, l: string, literals: seq<string>)
    returns (x: nat, s1: string, y: nat, s2: string, ns: seq<nat>)
    requires ReadFields(s, [k] + ([l] + literals)).Some?
    ensures ReadField(s, k) == Some((x, s1)) && ReadField(s1, l) == Some((y, s2))
    ensures ReadFields(s2, literals) == Some(ns) && ReadFields(s, [k] + ([l] + literals)) == Some([x] + ([y] + ns))
  {
    var xs;
    x, s1, xs := FieldsOff(s, k, [l] + literals);
    y, s2, ns := FieldsOff(s1, l, literals);
  }

  /** Reading four fields is reading them one after the other. */
  lemma FourFields(s: string, k: string, l: string, m: string, n: string)
    returns (ns: seq<nat>, s1: string, s2: string, s3: string, rest: string)
    requires ReadFields(s, [k, l, m, n]).Some?
    ensures ReadFields(s, [k, l, m, n]) == Some(ns) && |ns| == 4
    ensures ReadField(s, k) == Some((ns[0], s1)) && ReadField(s1, l) == Some((ns[1], s2))
    ensures ReadField(s2, m) == Some((ns[2], s3)) && ReadField(s3, n) == Some((ns[3], rest))
  {
    var last := [m] + ([n] + []);
    assert [k, l, m, n] == [k] + ([l] + last);
    var x, y, z, w, zw, none;
    x, s1, y, s2, zw := TwoFieldsOff(s, k, l, last);
    z, s3, w, rest, none := TwoFieldsOff(s2, m, n, []);
    ns := [x] + ([y] + zw);
    assert none == [];
  }

  lemma TwoFieldsOn(s: string, k: string, x: nat, s1: string, l: string, y: nat, s2: string,
                    literals: seq<string>, ns: seq<nat>)
    requires ReadField(s, k) == Some((x, s1)) && ReadField(s1, l) == Some((y, s2))
    requires ReadFields(s2, literals) == Some(ns)
    ensures ReadFields(s, [k] + ([l] + literals)) == Some([x] + ([y] + ns))
  {
    FieldsOn(s1, l, y, s2, literals, ns);
    FieldsOn(s, k, x, s1, [l] + literals, [y] + ns);
  }

  lemma NothingRead(s: string)
    ensures ReadFields(s, []) == Some([])
  {
  }

  lemma FourFieldsRead(s: string, k: string, s1: string, l: string, s2: string, m: string, s3: string, n: string,
                       rest: string, x: nat, y: nat, z: nat, w: nat)
    requires ReadField(s, k) == Some((x, s1)) && ReadField(s1, l) == Some((y, s2))
    requires ReadField(s2, m) == Some((z, s3)) && ReadField(s3, n) == Some((w, rest))
    ensures ReadFields(s, [k, l, m, n]) == Some([x, y, z, w])
  {
    var literals, ns := [m] + ([n] + []), [z] + ([w] + []);
    assert [k, l, m, n] == [k] + ([l] + literals) && [x, y, z, w] == [x] + ([y] + ns);
    NothingRead(rest);
    TwoFieldsOn(s2, m, z, s3, n, w, rest, [], []);
    TwoFieldsOn(s, k, x, s1, l, y, s2, literals, ns);
  }

  lemma HeaderParsed(s: string, ns: seq<nat>)
    requires ReadFields(s, LITERALS) == Some(ns) && |ns| == 4
    ensures ParseHeader("@@ -" + s) == Some(Header(ns[0], ns[1], ns[2], ns[3]))
  {
    assert ("@@ -" + s)[4..] == s && "@@ -" <= "@@ -" + s;
  }

  /** Every such text is read as its four numbers. */
  lemma TextIsHeader(a: string, b: string, c: string, d: string, tail: string)
    requires IsNumber(a) && IsNumber(b) && IsNumber(c) && IsNumber(d)
    ensures ParseHeader(HeaderText(a, b, c, d, tail)) ==
            Some(Header(DigitsValue(a), DigitsValue(b), DigitsValue(c), DigitsValue(d)))
  {
    var s3 := d + (" @@" + tail);
    var s2 := c + ("," + s3);
    var s1 := b + (" +" + s2);
    var s := a + ("," + s1);
    FieldReads(a, ",", s1);
    FieldReads(b, " +", s2);
    FieldReads(c, ",", s3);
    FieldReads(d, " @@", tail);
    FourFieldsRead(s, ",", s1, " +", s2, ",", s3, " @@", tail,
                   DigitsValue(a), DigitsValue(b), DigitsValue(c), DigitsValue(d));
    HeaderParsed(s, [DigitsValue(a), DigitsValue(b), DigitsValue(c), DigitsValue(d)]);
  }

  /** A repaired header as text. */
  lemma RenderSpelled(h: Header)
    ensures Render(h) ==
            HeaderText(Decimal(h.oldStart), Decimal(h.oldCount), Decimal(h.newStart), Decimal(h.newCount), "\n")
  {
    var a, b, c, d := h.oldStart, h.oldCount, h.newStart, h.newCount;
    RenderFieldsCons(d, [], " @@", [], "\n");
    RenderFieldsCons(c, [d], ",", [" @@"], "\n");
    RenderFieldsCons(b, [c, d], " +", [",", " @@"], "\n");
    RenderFieldsCons(a, [b, c, d], ",", [" +", ",", " @@"], "\n");
    assert [d] + [] == [d] && [c] + [d] == [c, d] && [b] + [c, d] == [b, c, d] && [a] + [b, c, d] == [a, b, c, d];
    assert [" @@"] + [] == [" @@"] && [","] + [" @@"] == [",", " @@"];
    assert [" +"] + [",", " @@"] == [" +", ",", " @@"] && [","] + [" +", ",", " @@"] == LITERALS;
  }

  /** Which lines the two counts take: removed and added ones that are no file names, context, and empty lines. */
  lemma CountsSpelled(line: string)
    ensures OldCount([line]) == (if (StartsWith(line, '-') && !("---" <= line)) || StartsWith(line, ' ') || line == "\n"
                                 then 1 else 0)
    ensures NewCount([line]) == (if (StartsWith(line, '+') && !("+++" <= line)) || StartsWith(line, ' ') || line == "\n"
                                 then 1 else 0)
    ensures BodyLength([line]) == if "@@" <= line || "---" <= line then 0 else 1
  {
    assert [line][1..] == [];
    BodyLengthIs([line], if "@@" <= line || "---" <= line then 0 else 1);
  }

  // ---- the repaired text ----------------------------------------------------

  lemma NoNewlineIn(a: string, b: string)
    requires '\n' !in a && '\n' !in b
    ensures '\n' !in a + b
  {
  }

  lemma HeaderTextIsLine(a: string, b: string, c: string, d: string)
    requires IsNumber(a) && IsNumber(b) && IsNumber(c) && IsNumber(d)
    ensures FileLines.IsLine(HeaderText(a, b, c, d, "\n"))
  {
    var s3 := d + " @@";
    var s2 := c + ("," + s3);
    var s1 := b + (" +" + s2);
    var s := a + ("," + s1);
    NoNewlineIn(d, " @@");
    NoNewlineIn(",", s3);
    NoNewlineIn(c, "," + s3);
    NoNewlineIn(" +", s2);
    NoNewlineIn(b, " +" + s2);
    NoNewlineIn(",", s1);
    NoNewlineIn(a, "," + s1);
    NoNewlineIn("@@ -", s);
    assert HeaderText(a, b, c, d, "\n") == ("@@ -" + s) + "\n";
    assert (("@@ -" + s) + "\n")[..|"@@ -" + s|] == "@@ -" + s;
  }

  lemma {:induction false} RepairedIsSplittable(lines: seq<string>)
    requires FileLines.Splittable(lines)
    ensures FileLines.Splittable(Repair(lines))
    decreases |lines|
  {
    if lines != [] {
      FirstRepaired(lines);
      var first, rest := RepairedLine(lines, 0), Repair(lines[1..]);
      if ParseHeader(lines[0]).Some? {
        var h := Recounted(lines, 0);
        RenderSpelled(h);
        HeaderTextIsLine(Decimal(h.oldStart), Decimal(h.oldCount), Decimal(h.newStart), Decimal(h.newCount));
      }
      if FileLines.Splittable(lines[1..]) {
        RepairedIsSplittable(lines[1..]);
      }
      assert ([first] + rest)[1..] == rest;
      assert |lines| == 1 ==> lines[1..] == [] && rest == [];
    }
  }

  /** A text with its hunk headers repaired: split, repaired and joined. */
  function RepairedText(text: string): string {
    FileLines.Join(Repair(FileLines.Split(text)))
  }

  /** The joined text splits into the repaired lines again: no line is lost or run into another. */
  lemma RepairedTextSplits(text: string)
    ensures FileLines.Split(RepairedText(text)) == Repair(FileLines.Split(text))
    ensures RepairedText(RepairedText(text)) == RepairedText(text)
  {
    var lines := FileLines.Split(text);
    FileLines.SplitIsJoined(text);
    RepairedIsSplittable(lines);
    FileLines.JoinedIsSplit(Repair(lines));
    RepairIdempotent(lines);
  }

  /** A header with true counts and nothing behind it stays as it is, letter by letter. */
  lemma TrueHeaderStays(a: nat, c: nat, body: seq<string>, rest: seq<string>)
    requires IsBody(body) && Follows(rest)
    ensures var header := HeaderText(Decimal(a), Decimal(OldCount(body)), Decimal(c), Decimal(NewCount(body)), "\n");
            Repair([header] + (body + rest)) == [header] + body + Repair(rest)
  {
    var h := Header(a, OldCount(body), c, NewCount(body));
    RenderSpelled(h);
    ParseRendered(h);
    RepairHunk(Render(h), h, body, rest);
  }
}
