// scripts/backfill_bug_class.py, patch_file: a `bug_class:` line behind the
// `severity:` (or else `class:`) line of every hypothesis that has none.
module BugClassMigration {
  import opened Bytes
  import opened Text
  import opened FileLines

  const ID := "  - id: "
  const BUG_CLASS := "    bug_class:"
  const SEVERITY := "    severity:"
  const CLASS := "    class:"

  type Name = s: string | '\n' !in s

  /** ID_TO_CLASS.get; an empty class counts as none. */
  type ClassOf = string -> Option<Name>

  // ---- the patterns --------------------------------------------------------

  /** The longest front without white space. */
  function Word(s: string): string {
    if s == "" || IsSpace(s[0]) then "" else [s[0]] + Word(s[1..])
  }

  /** `  - id: ` and one word. */
  function HypId(line: string): Option<string> {
    if !(ID <= line) then None
    else
      var rest := line[|ID|..];
      var word := Word(rest);
      if word != "" && |word| <= |rest| && StripLeft(rest[|word|..]) == "" then Some(word) else None
  }

  predicate IsBugClass(line: string) {
    BUG_CLASS <= line
  }

  predicate IsSeverity(line: string) {
    SEVERITY <= line
  }

  predicate IsClass(line: string) {
    CLASS <= line
  }

  /** The lines up to the next hypothesis. */
  function BlockLength(lines: seq<string>): (n: nat)
    ensures n <= |lines|
    ensures n < |lines| ==> HypId(lines[n]).Some?
    ensures forall i :: 0 <= i < n ==> HypId(lines[i]).None?
  {
    if lines == [] || HypId(lines[0]).Some? then 0 else 1 + BlockLength(lines[1..])
  }

  predicate HasBugClass(block: seq<string>) {
    block != [] && (IsBugClass(block[0]) || HasBugClass(block[1..]))
  }

  /** The lines a pass looks for: severity first, class in the second pass. */
  predicate Fits(line: string, severity: bool) {
    if severity then IsSeverity(line) else IsClass(line)
  }

  function First(block: seq<string>, severity: bool): (n: nat)
    ensures n <= |block| && (n < |block| ==> Fits(block[n], severity))
    ensures forall i :: 0 <= i < n ==> !Fits(block[i], severity)
  {
    if block == [] || Fits(block[0], severity) then 0 else 1 + First(block[1..], severity)
  }

  /** Where the new line goes behind; the length of the block when there is no place. */
  function Anchor(block: seq<string>): (n: nat)
    ensures n <= |block|
  {
    if First(block, true) < |block| then First(block, true) else First(block, false)
  }

  function FieldLine(name: Name): (line: string)
    ensures IsLine(line)
  {
    var s := BUG_CLASS + " " + name + "\n";
    assert s[..|s| - 1] == BUG_CLASS + " " + name;
    s
  }

  datatype Verdict = AlreadySet | Unmapped(text: string) | Patched(anchor: nat, line: string)

  function VerdictOn(id: string, block: seq<string>, classOf: ClassOf): (v: Verdict)
    ensures v.Patched? ==> v.anchor < |block| && IsLine(v.line)
  {
    if HasBugClass(block) then AlreadySet
    else
      match classOf(id)
      case None => Unmapped(id)
      case Some(name) =>
        if name == "" then Unmapped(id)
        else if Anchor(block) == |block| then Unmapped(id + " (no anchor)")
        else Patched(Anchor(block), FieldLine(name))
  }

  function OneNote(n: nat, anchor: nat, line: string): (r: Notes)
    requires anchor < n
    ensures |r| == n
  {
    if anchor == 0 then [Some(line)] + NoNotes(n - 1) else [None] + OneNote(n - 1, anchor - 1, line)
  }

  function BlockNotes(id: string, block: seq<string>, classOf: ClassOf): (r: Notes)
    ensures |r| == |block|
  {
    match VerdictOn(id, block, classOf)
    case Patched(anchor, line) => OneNote(|block|, anchor, line)
    case _ => NoNotes(|block|)
  }

  function NotesFor(lines: seq<string>, classOf: ClassOf): (r: Notes)
    ensures |r| == |lines|
    decreases |lines|
  {
    if lines == [] then []
    else
      match HypId(lines[0])
      case None => [None] + NotesFor(lines[1..], classOf)
      case Some(id) =>
        var n := 1 + BlockLength(lines[1..]);
        [None] + BlockNotes(id, lines[1..n], classOf) + NotesFor(lines[n..], classOf)
  }

  function Migrated(lines: seq<string>, classOf: ClassOf): seq<string> {
    Weave(lines, NotesFor(lines, classOf))
  }

  datatype Tally = Tally(patched: nat, already: nat, unmapped: seq<string>)

  function Counted(t: Tally, v: Verdict): Tally {
    match v
    case AlreadySet => t.(already := t.already + 1)
    case Unmapped(text) => t.(unmapped := t.unmapped + [text])
    case Patched(_, _) => t.(patched := t.patched + 1)
  }

  /** What patch_file counts, from `t` on. */
  function TallyFrom(lines: seq<string>, classOf: ClassOf, t: Tally): Tally
    decreases |lines|
  {
    if lines == [] then t
    else
      match HypId(lines[0])
      case None => TallyFrom(lines[1..], classOf, t)
      case Some(id) =>
        var n := 1 + BlockLength(lines[1..]);
        TallyFrom(lines[n..], classOf, Counted(t, VerdictOn(id, lines[1..n], classOf)))
  }

  // ---- the script ----------------------------------------------------------

  method FindBoundary(lines: seq<string>, i: nat) returns (j: nat)
    requires i <= |lines|
    ensures j == i + BlockLength(lines[i..])
  {
    j := i;
    while j < |lines| && HypId(lines[j]).None?
      invariant i <= j <= |lines|
      invariant i + BlockLength(lines[i..]) == j + BlockLength(lines[j..])
    {
      assert lines[j..][1..] == lines[j + 1..];
      j := j + 1;
    }
  }

  /** The first `k` lines of a block, with the new line behind the line at `n`. */
  function Spliced(block: seq<string>, n: nat, k: nat, line: string): seq<string>
    requires k <= |block|
  {
    if n < k then block[..n + 1] + [line] + block[n + 1..k] else block[..k]
  }

  lemma SplicedStep(block: seq<string>, n: nat, k: nat, line: string)
    requires k < |block|
    ensures Spliced(block, n, k + 1, line) ==
            if n == k then (Spliced(block, n, k, line) + [block[k]]) + [line]
            else Spliced(block, n, k, line) + [block[k]]
  {
  }

  lemma FirstAt(block: seq<string>, severity: bool, k: nat)
    requires k < |block|
    ensures k <= First(block, severity) ==> (Fits(block[k], severity) <==> First(block, severity) == k)
  {
  }

  /** One pass over the block: the line goes behind the first line that fits. */
  method InsertBehind(block: seq<string>, line: string, severity: bool) returns (out: seq<string>, inserted: bool)
    ensures out == Spliced(block, First(block, severity), |block|, line)
    ensures inserted == (First(block, severity) < |block|)
  {
    out, inserted := [], false;
    ghost var n := First(block, severity);
    for k := 0 to |block|
      invariant inserted == (n < k)
      invariant out == Spliced(block, n, k, line)
    {
      SplicedStep(block, n, k, line);
      FirstAt(block, severity, k);
      out := out + [block[k]];
      if !inserted && Fits(block[k], severity) {
        out := out + [line];
        inserted := true;
      }
    }
  }

  lemma FitsNow(ln: string, rest: seq<string>, line: string)
    ensures Weave([ln] + rest, OneNote(1 + |rest|, 0, line)) == [ln] + ([line] + rest)
  {
    NothingAdded(|rest|);
    WeaveNothing(rest, NoNotes(|rest|));
    WeaveCons(ln, rest, Some(line), NoNotes(|rest|));
    Regroup([ln], [line], rest);
  }

  lemma FitsLater(ln: string, rest: seq<string>, n: nat, line: string)
    requires n < |rest|
    ensures Weave([ln] + rest, OneNote(1 + |rest|, n + 1, line)) == [ln] + Weave(rest, OneNote(|rest|, n, line))
  {
    WeaveCons(ln, rest, None, OneNote(|rest|, n, line));
    assert [ln] + [] == [ln];
  }

  lemma SplicedLater(head: string, rest: seq<string>, n: nat, line: string)
    requires n < |rest|
    ensures Spliced([head] + rest, n + 1, |rest| + 1, line) == [head] + Spliced(rest, n, |rest|, line)
  {
    var block := [head] + rest;
    assert block[..n + 2] == [head] + rest[..n + 1];
    assert block[n + 2..|rest| + 1] == rest[n + 1..];
  }

  /** The pass is the weaving of one note. */
  lemma {:induction false} SplicedIsWoven(block: seq<string>, n: nat, line: string)
    requires n < |block|
    ensures Spliced(block, n, |block|, line) == Weave(block, OneNote(|block|, n, line))
  {
    var head, rest := block[0], block[1..];
    assert block == [head] + rest;
    if n == 0 {
      FitsNow(head, rest, line);
      assert Spliced(block, 0, |block|, line) == [head] + ([line] + rest);
    } else {
      SplicedIsWoven(rest, n - 1, line);
      SplicedLater(head, rest, n - 1, line);
      FitsLater(head, rest, n - 1, line);
    }
  }

  method PatchBlock(id: string, block: seq<string>, classOf: ClassOf) returns (out: seq<string>, v: Verdict)
    ensures v == VerdictOn(id, block, classOf)
    ensures out == Weave(block, BlockNotes(id, block, classOf))
  {
    NothingAdded(|block|);
    WeaveNothing(block, NoNotes(|block|));
    if HasBugClass(block) {
      return block, AlreadySet;
    }
    var bugClass := classOf(id);
    if bugClass == None || bugClass.value == "" {
      return block, Unmapped(id);
    }
    var line := FieldLine(bugClass.value);
    if Anchor(block) < |block| {
      SplicedIsWoven(block, Anchor(block), line);
    }
    var inserted;
    out, inserted := InsertBehind(block, line, true);
    if !inserted {
      out, inserted := InsertBehind(block, line, false);
    }
    v := if inserted then Patched(Anchor(block), line) else Unmapped(id + " (no anchor)");
  }

  /** One turn of the main loop: a line outside the hypotheses, or a hypothesis up to the next one. */
  method PatchNext(lines: seq<string>, i: nat, classOf: ClassOf, t: Tally)
    returns (piece: seq<string>, j: nat, t': Tally)
    requires i < |lines|
    ensures i < j <= |lines|
    ensures Migrated(lines[i..], classOf) == piece + Migrated(lines[j..], classOf)
    ensures TallyFrom(lines[i..], classOf, t) == TallyFrom(lines[j..], classOf, t')
    ensures t.patched + Added(NotesFor(lines[i..], classOf)) == t'.patched + Added(NotesFor(lines[j..], classOf))
  {
    match HypId(lines[i]) {
      case None =>
        PlainAt(lines, i, classOf, t);
        piece, j, t' := [lines[i]], i + 1, t;
      case Some(id) =>
        j := FindBoundary(lines, i + 1);
        HypothesisAt(lines, i, j, id, classOf, t);
        var newBlock, v := PatchBlock(id, lines[i + 1..j], classOf);
        piece, t' := [lines[i]] + newBlock, Counted(t, v);
        Regroup([lines[i]], newBlock, Migrated(lines[j..], classOf));
    }
  }

  method PatchFile(text: string, classOf: ClassOf) returns (after: string, t: Tally)
    ensures after == Join(Migrated(Split(text), classOf))
    ensures t == TallyFrom(Split(text), classOf, Tally(0, 0, []))
    ensures t.patched == Added(NotesFor(Split(text), classOf))
  {
    var lines := Split(text);
    var out: seq<string> := [];
    t := Tally(0, 0, []);
    var i := 0;
    while i < |lines|
      invariant i <= |lines|
      invariant out + Migrated(lines[i..], classOf) == Migrated(lines, classOf)
      invariant TallyFrom(lines[i..], classOf, t) == TallyFrom(lines, classOf, Tally(0, 0, []))
      invariant t.patched + Added(NotesFor(lines[i..], classOf)) == Added(NotesFor(lines, classOf))
    {
      var piece, j, t' := PatchNext(lines, i, classOf, t);
      Regroup(out, piece, Migrated(lines[j..], classOf));
      out, i, t := out + piece, j, t';
    }
    assert out + [] == out;
    SplitIsJoined(text);
    if t.patched > 0 {
      after := Join(out);
    } else {
      WeaveNothing(lines, NotesFor(lines, classOf));
      after := text;
    }
  }

  lemma PlainNotes(line: string, rest: seq<string>, classOf: ClassOf)
    requires HypId(line).None?
    ensures NotesFor([line] + rest, classOf) == [None] + NotesFor(rest, classOf)
    ensures forall t: Tally :: TallyFrom([line] + rest, classOf, t) == TallyFrom(rest, classOf, t)
  {
    assert ([line] + rest)[1..] == rest;
  }

  /** A line outside the hypotheses stays as it is. */
  lemma PlainLine(line: string, rest: seq<string>, classOf: ClassOf)
    requires HypId(line).None?
    ensures Added(NotesFor([line] + rest, classOf)) == Added(NotesFor(rest, classOf))
    ensures Migrated([line] + rest, classOf) == [line] + Migrated(rest, classOf)
  {
    PlainNotes(line, rest, classOf);
    AddedConcat([None], NotesFor(rest, classOf));
    WeaveCons(line, rest, None, NotesFor(rest, classOf));
    assert [line] + [] == [line];
  }

  lemma CutHead(lines: seq<string>) returns (rest: seq<string>)
    requires lines != []
    ensures lines == [lines[0]] + rest
  {
    rest := lines[1..];
  }

  lemma {:induction false} OneNoteAdded(n: nat, anchor: nat, line: string)
    requires anchor < n && IsLine(line)
    ensures Added(OneNote(n, anchor, line)) == 1 && ProperNotes(OneNote(n, anchor, line))
  {
    if anchor == 0 {
      NothingAdded(n - 1);
      NoneIsProper(n - 1);
      assert ([Some(line)] + NoNotes(n - 1))[1..] == NoNotes(n - 1);
    } else {
      OneNoteAdded(n - 1, anchor - 1, line);
      assert ([None] + OneNote(n - 1, anchor - 1, line))[1..] == OneNote(n - 1, anchor - 1, line);
    }
  }

  lemma {:induction false} NoneIsProper(n: nat)
    ensures ProperNotes(NoNotes(n))
  {
    if n > 0 {
      NoneIsProper(n - 1);
      assert NoNotes(n)[1..] == NoNotes(n - 1);
    }
  }

  lemma BlockNotesAdded(id: string, block: seq<string>, classOf: ClassOf)
    ensures Added(BlockNotes(id, block, classOf)) == if VerdictOn(id, block, classOf).Patched? then 1 else 0
    ensures ProperNotes(BlockNotes(id, block, classOf))
  {
    NothingAdded(|block|);
    NoneIsProper(|block|);
    match VerdictOn(id, block, classOf)
    case Patched(anchor, line) => OneNoteAdded(|block|, anchor, line);
    case _ =>
  }

  lemma PlainAt(lines: seq<string>, i: nat, classOf: ClassOf, t: Tally)
    requires i < |lines| && HypId(lines[i]).None?
    ensures Migrated(lines[i..], classOf) == [lines[i]] + Migrated(lines[i + 1..], classOf)
    ensures TallyFrom(lines[i..], classOf, t) == TallyFrom(lines[i + 1..], classOf, t)
    ensures Added(NotesFor(lines[i..], classOf)) == Added(NotesFor(lines[i + 1..], classOf))
  {
    assert lines[i..] == [lines[i]] + lines[i + 1..];
    PlainNotes(lines[i], lines[i + 1..], classOf);
    PlainLine(lines[i], lines[i + 1..], classOf);
  }

  predicate NoIds(block: seq<string>) {
    BlockLength(block) == |block|
  }

  predicate AtBoundary(tail: seq<string>) {
    tail == [] || HypId(tail[0]).Some?
  }

  lemma {:induction false} BlockEnds(block: seq<string>, tail: seq<string>)
    requires NoIds(block) && AtBoundary(tail)
    ensures BlockLength(block + tail) == |block|
  {
    if block == [] {
      assert block + tail == tail;
    } else {
      assert (block + tail)[1..] == block[1..] + tail;
      BlockEnds(block[1..], tail);
    }
  }

  lemma {:induction false} BlockIsPrefix(lines: seq<string>)
    ensures NoIds(lines[..BlockLength(lines)]) && AtBoundary(lines[BlockLength(lines)..])
  {
    var n := BlockLength(lines);
    if n > 0 {
      BlockIsPrefix(lines[1..]);
      assert lines[..n][1..] == lines[1..][..n - 1] && lines[n..] == lines[1..][n - 1..];
    }
  }

  /** What stands behind the first line: a block and the next hypotheses. */
  lemma CutBlock(lines: seq<string>) returns (block: seq<string>, tail: seq<string>)
    requires lines != []
    ensures lines == [lines[0]] + (block + tail) && NoIds(block) && AtBoundary(tail)
  {
    var rest := lines[1..];
    BlockIsPrefix(rest);
    block, tail := rest[..BlockLength(rest)], rest[BlockLength(rest)..];
  }

  lemma HypothesisNotes(line: string, id: string, block: seq<string>, tail: seq<string>, classOf: ClassOf, t: Tally)
    requires HypId(line) == Some(id) && NoIds(block) && AtBoundary(tail)
    ensures NotesFor([line] + (block + tail), classOf) ==
            [None] + (BlockNotes(id, block, classOf) + NotesFor(tail, classOf))
    ensures TallyFrom([line] + (block + tail), classOf, t) ==
            TallyFrom(tail, classOf, Counted(t, VerdictOn(id, block, classOf)))
  {
    var lines := [line] + (block + tail);
    var n := 1 + |block|;
    BlockEnds(block, tail);
    assert lines[1..] == block + tail;
    assert lines[1..n] == block && lines[n..] == tail;
    Regroup([None], BlockNotes(id, block, classOf), NotesFor(tail, classOf));
  }

  /** A hypothesis: its line, its block, and what follows. */
  lemma HypothesisLines(line: string, id: string, block: seq<string>, tail: seq<string>, classOf: ClassOf)
    requires HypId(line) == Some(id) && NoIds(block) && AtBoundary(tail)
    ensures Added(NotesFor([line] + (block + tail), classOf)) ==
            (if VerdictOn(id, block, classOf).Patched? then 1 else 0) + Added(NotesFor(tail, classOf))
    ensures Migrated([line] + (block + tail), classOf) ==
            [line] + (Weave(block, BlockNotes(id, block, classOf)) + Migrated(tail, classOf))
  {
    var notes := BlockNotes(id, block, classOf);
    var more := NotesFor(tail, classOf);
    HypothesisNotes(line, id, block, tail, classOf, Tally(0, 0, []));
    BlockNotesAdded(id, block, classOf);
    AddedConcat([None], notes + more);
    AddedConcat(notes, more);
    WeaveCons(line, block + tail, None, notes + more);
    WeaveConcat(block, notes, tail, more);
    assert [line] + [] == [line];
  }

  lemma CutAt(lines: seq<string>, i: nat, j: nat)
    requires i < |lines| && j == i + 1 + BlockLength(lines[i + 1..])
    ensures lines[i..] == [lines[i]] + (lines[i + 1..j] + lines[j..])
    ensures NoIds(lines[i + 1..j]) && AtBoundary(lines[j..])
  {
    var rest := lines[i + 1..];
    BlockIsPrefix(rest);
    assert rest[..BlockLength(rest)] == lines[i + 1..j] && rest[BlockLength(rest)..] == lines[j..];
  }

  lemma HypothesisAt(lines: seq<string>, i: nat, j: nat, id: string, classOf: ClassOf, t: Tally)
    requires i < |lines| && HypId(lines[i]) == Some(id) && j == i + 1 + BlockLength(lines[i + 1..])
    ensures Migrated(lines[i..], classOf) ==
            [lines[i]] +
            (Weave(lines[i + 1..j], BlockNotes(id, lines[i + 1..j], classOf)) + Migrated(lines[j..], classOf))
    ensures TallyFrom(lines[i..], classOf, t) ==
            TallyFrom(lines[j..], classOf, Counted(t, VerdictOn(id, lines[i + 1..j], classOf)))
    ensures Added(NotesFor(lines[i..], classOf)) ==
            (if VerdictOn(id, lines[i + 1..j], classOf).Patched? then 1 else 0) + Added(NotesFor(lines[j..], classOf))
  {
    var block, tail := lines[i + 1..j], lines[j..];
    CutAt(lines, i, j);
    HypothesisNotes(lines[i], id, block, tail, classOf, t);
    HypothesisLines(lines[i], id, block, tail, classOf);
  }

  // ---- running it twice ----------------------------------------------------

  lemma FieldLineIsNoId(name: Name)
    ensures IsBugClass(FieldLine(name)) && HypId(FieldLine(name)).None?
  {
    var s := FieldLine(name);
    assert s[2] == ' ' && ID[2] == '-';
  }

  lemma Behead(head: string, rest: seq<string>)
    ensures NoIds([head] + rest) <==> HypId(head).None? && NoIds(rest)
    ensures HasBugClass([head] + rest) <==> IsBugClass(head) || HasBugClass(rest)
  {
    assert ([head] + rest)[1..] == rest;
  }

  lemma NowNoIds(head: string, rest: seq<string>, line: string)
    requires NoIds([head] + rest) && IsBugClass(line) && HypId(line).None?
    ensures Marked(Weave([head] + rest, OneNote(1 + |rest|, 0, line)))
  {
    FitsNow(head, rest, line);
    Behead(head, rest);
    Behead(line, rest);
    Behead(head, [line] + rest);
  }

  lemma LaterNoIds(head: string, rest: seq<string>, k: nat, line: string)
    requires NoIds([head] + rest) && k < |rest|
    requires Marked(Weave(rest, OneNote(|rest|, k, line)))
    ensures Marked(Weave([head] + rest, OneNote(1 + |rest|, k + 1, line)))
  {
    FitsLater(head, rest, k, line);
    Behead(head, rest);
    Behead(head, Weave(rest, OneNote(|rest|, k, line)));
  }

  ghost predicate Marked(block: seq<string>) {
    NoIds(block) && HasBugClass(block)
  }

  lemma {:induction false} OneNoteMarks(n: nat, block: seq<string>, anchor: nat, line: string)
    requires |block| == n && NoIds(block) && anchor < n && IsBugClass(line) && HypId(line).None?
    ensures Marked(Weave(block, OneNote(n, anchor, line)))
    decreases n
  {
    var head, rest := block[0], block[1..];
    assert block == [head] + rest;
    Behead(head, rest);
    if anchor == 0 {
      NowNoIds(head, rest, line);
    } else {
      OneNoteMarks(n - 1, rest, anchor - 1, line);
      LaterNoIds(head, rest, anchor - 1, line);
    }
  }

  /** A block the script has dealt with is one hypothesis still, and gets nothing more. */
  lemma BlockDealtWith(id: string, block: seq<string>, classOf: ClassOf)
    requires NoIds(block)
    ensures var woven := Weave(block, BlockNotes(id, block, classOf));
            NoIds(woven) && !VerdictOn(id, woven, classOf).Patched?
    ensures HasBugClass(Weave(block, BlockNotes(id, block, classOf))) <==>
            HasBugClass(block) || VerdictOn(id, block, classOf).Patched?
  {
    match VerdictOn(id, block, classOf)
    case Patched(anchor, line) =>
      FieldLineIsNoId(classOf(id).value);
      OneNoteMarks(|block|, block, anchor, line);
    case _ =>
      NothingAdded(|block|);
      WeaveNothing(block, NoNotes(|block|));
  }

  lemma MigratedBoundary(tail: seq<string>, classOf: ClassOf)
    requires AtBoundary(tail)
    ensures AtBoundary(Migrated(tail, classOf))
  {
  }

  /** On the lines it has written, the script adds nothing. */
  lemma {:induction false} SecondRunAddsNothing(lines: seq<string>, classOf: ClassOf)
    ensures Added(NotesFor(Migrated(lines, classOf), classOf)) == 0
    decreases |lines|
  {
    if lines != [] {
      match HypId(lines[0])
      case None =>
        var rest := CutHead(lines);
        SecondRunAddsNothing(rest, classOf);
        PlainLine(lines[0], rest, classOf);
        PlainLine(lines[0], Migrated(rest, classOf), classOf);
      case Some(id) =>
        var block, tail := CutBlock(lines);
        HypothesisLines(lines[0], id, block, tail, classOf);
        SecondRunAddsNothing(tail, classOf);
        BlockDealtWith(id, block, classOf);
        MigratedBoundary(tail, classOf);
        HypothesisLines(lines[0], id, Weave(block, BlockNotes(id, block, classOf)), Migrated(tail, classOf), classOf);
    }
  }

  lemma {:induction false} ProperNotesFor(lines: seq<string>, classOf: ClassOf)
    ensures ProperNotes(NotesFor(lines, classOf))
    decreases |lines|
  {
    if lines != [] {
      match HypId(lines[0])
      case None =>
        ProperNotesFor(lines[1..], classOf);
        AddedConcat([None], NotesFor(lines[1..], classOf));
      case Some(id) =>
        var n := 1 + BlockLength(lines[1..]);
        ProperNotesFor(lines[n..], classOf);
        BlockNotesAdded(id, lines[1..n], classOf);
        AddedConcat([None], BlockNotes(id, lines[1..n], classOf));
        AddedConcat([None] + BlockNotes(id, lines[1..n], classOf), NotesFor(lines[n..], classOf));
    }
  }

  /** Every line stays, in order; the rest are the added lines. */
  lemma OnlyAddsLines(lines: seq<string>, classOf: ClassOf)
    ensures Subsequence(lines, Migrated(lines, classOf))
    ensures |Migrated(lines, classOf)| == |lines| + Added(NotesFor(lines, classOf))
  {
    WeaveKeepsLines(lines, NotesFor(lines, classOf));
  }

  function MigratedText(text: string, classOf: ClassOf): string {
    Join(Migrated(Split(text), classOf))
  }

  /** The last line has no newline and is the one the last hypothesis gets its class behind. */
  predicate EndsInOpenAnchor(text: string, classOf: ClassOf) {
    RunsTogether(Split(text), NotesFor(Split(text), classOf))
  }

  lemma SecondRunOnText(text: string, classOf: ClassOf)
    requires !EndsInOpenAnchor(text, classOf)
    ensures MigratedText(MigratedText(text, classOf), classOf) == MigratedText(text, classOf)
  {
    var lines := Split(text);
    var after := Migrated(lines, classOf);
    SplitIsJoined(text);
    ProperNotesFor(lines, classOf);
    WovenIsSplittable(lines, NotesFor(lines, classOf));
    JoinedIsSplit(after);
    SecondRunAddsNothing(lines, classOf);
    WeaveNothing(after, NotesFor(after, classOf));
  }

  /** On newline-terminated files, twice is once. */
  lemma IdempotentWhenTerminated(text: string, classOf: ClassOf)
    requires text == "" || text[|text| - 1] == '\n'
    ensures MigratedText(MigratedText(text, classOf), classOf) == MigratedText(text, classOf)
  {
    TerminatedEndsInLine(text);
    SecondRunOnText(text, classOf);
  }

  // ---- the one file on which the second run is not idle --------------------

  predicate IsAnchorLine(line: string) {
    IsSeverity(line) || IsClass(line)
  }

  lemma LongerAnchor(line: string, more: string)
    requires IsAnchorLine(line)
    ensures IsSeverity(line) ==> IsSeverity(line + more)
    ensures IsClass(line) ==> IsClass(line + more)
    ensures !IsBugClass(line + more) && HypId(line + more).None?
  {
    var s := line + more;
    assert s[4] == line[4] && s[2] == line[2];
    assert SEVERITY[4] == 's' && CLASS[4] == 'c' && BUG_CLASS[4] == 'b';
    assert SEVERITY[2] == ' ' && CLASS[2] == ' ' && ID[2] == '-';
  }

  lemma {:induction false} SnocBlock(block: seq<string>, line: string)
    ensures NoIds(block + [line]) <==> NoIds(block) && HypId(line).None?
    ensures HasBugClass(block + [line]) <==> HasBugClass(block) || IsBugClass(line)
  {
    if block == [] {
      Behead(line, []);
      assert block + [line] == [line] + [];
    } else {
      SnocBlock(block[1..], line);
      assert block == [block[0]] + block[1..] && block + [line] == [block[0]] + (block[1..] + [line]);
      Behead(block[0], block[1..]);
      Behead(block[0], block[1..] + [line]);
    }
  }

  /** With its last line made longer, a block that was patched behind that line is patched again. */
  lemma PatchedAgain(id: string, before: seq<string>, last: string, more: string, classOf: ClassOf)
    requires NoIds(before + [last]) && IsAnchorLine(last)
    requires VerdictOn(id, before + [last], classOf).Patched?
    ensures NoIds(before + [last + more]) && VerdictOn(id, before + [last + more], classOf).Patched?
  {
    LongerAnchor(last, more);
    SnocBlock(before, last);
    SnocBlock(before, last + more);
    var block := before + [last + more];
    assert block[|before|] == last + more;
    assert Fits(block[|before|], true) || Fits(block[|before|], false);
  }

  lemma {:induction false} OneNoteLast(n: nat, anchor: nat, line: string)
    requires anchor < n
    ensures OneNote(n, anchor, line)[n - 1] == if anchor == n - 1 then Some(line) else None
    ensures anchor == n - 1 ==> OneNote(n, anchor, line)[..n - 1] == NoNotes(n - 1)
  {
    var notes := OneNote(n, anchor, line);
    if anchor == 0 {
      assert n == 1 ==> notes[..0] == NoNotes(0);
    } else {
      var inner := OneNote(n - 1, anchor - 1, line);
      OneNoteLast(n - 1, anchor - 1, line);
      assert notes[n - 1] == inner[n - 2];
      assert anchor == n - 1 ==> notes[..n - 1] == [None] + inner[..n - 2];
    }
  }

  lemma AnchorIsAnchor(block: seq<string>)
    requires Anchor(block) < |block|
    ensures IsAnchorLine(block[Anchor(block)])
  {
  }

  lemma MergedOneNote(before: seq<string>, last: string, line: string)
    ensures var notes := OneNote(|before| + 1, |before|, line);
            notes[|before|] == Some(line) && Merged(before + [last], notes) == before + [last + line]
  {
    var m := |before|;
    var block := before + [last];
    OneNoteLast(m + 1, m, line);
    MergedIsWoven(block, OneNote(m + 1, m, line), m);
    NothingAdded(m);
    WeaveNothing(before, NoNotes(m));
    assert block[..m] == before && block[m] == last;
  }

  lemma LastNoteOf(id: string, block: seq<string>, classOf: ClassOf)
    requires block != [] && BlockNotes(id, block, classOf)[|block| - 1].Some?
    ensures VerdictOn(id, block, classOf).Patched? && VerdictOn(id, block, classOf).anchor == |block| - 1
    ensures IsAnchorLine(block[|block| - 1])
  {
    var v := VerdictOn(id, block, classOf);
    if v.Patched? {
      OneNoteLast(|block|, v.anchor, v.line);
      AnchorIsAnchor(block);
    }
  }

  /** The last block, when its last line gets the note. */
  lemma LastBlockGrows(line: string, id: string, before: seq<string>, last: string, classOf: ClassOf)
    requires HypId(line) == Some(id) && NoIds(before + [last])
    requires BlockNotes(id, before + [last], classOf)[|before|].Some?
    ensures var block := before + [last];
            Added(NotesFor([line] + Merged(block, BlockNotes(id, block, classOf)), classOf)) > 0
  {
    var v := VerdictOn(id, before + [last], classOf);
    LastNoteOf(id, before + [last], classOf);
    MergedOneNote(before, last, v.line);
    PatchedAgain(id, before, last, v.line, classOf);
    var again := before + [last + v.line];
    HypothesisLines(line, id, again, [], classOf);
    assert again + [] == again;
  }

  ghost predicate Grows(lines: seq<string>, notes: Notes, classOf: ClassOf) {
    |lines| == |notes| && lines != [] && notes[|notes| - 1].Some? && Added(NotesFor(Merged(lines, notes), classOf)) > 0
  }

  lemma GrowsPlain(line: string, rest: seq<string>, notes: Notes, classOf: ClassOf)
    requires HypId(line).None? && Grows(rest, notes, classOf)
    ensures Grows([line] + rest, [None] + notes, classOf)
  {
    MergedCons(line, None, rest, notes);
    PlainLine(line, Merged(rest, notes), classOf);
    assert [line] + [] == [line];
  }

  lemma CutLast(block: seq<string>) returns (before: seq<string>, last: string)
    requires block != []
    ensures block == before + [last]
  {
    before, last := block[..|block| - 1], block[|block| - 1];
  }

  lemma GrowsAtEnd(line: string, id: string, block: seq<string>, classOf: ClassOf)
    requires HypId(line) == Some(id) && NoIds(block) && block != []
    requires BlockNotes(id, block, classOf)[|block| - 1].Some?
    ensures Grows([line] + block, [None] + BlockNotes(id, block, classOf), classOf)
  {
    var notes := BlockNotes(id, block, classOf);
    var before, last := CutLast(block);
    LastBlockGrows(line, id, before, last, classOf);
    MergedCons(line, None, block, notes);
    assert [line] + Note(None) == [line];
    assert ([None] + notes)[|block|] == notes[|block| - 1];
  }

  lemma GrowsLater(line: string, id: string, block: seq<string>, tail: seq<string>, more: Notes, classOf: ClassOf)
    requires HypId(line) == Some(id) && NoIds(block) && |tail| > 1 && AtBoundary(tail)
    requires Grows(tail, more, classOf)
    ensures Grows([line] + (block + tail), [None] + (BlockNotes(id, block, classOf) + more), classOf)
  {
    var notes := BlockNotes(id, block, classOf);
    MergedConcat(block, notes, tail, more);
    MergedCons(line, None, block + tail, notes + more);
    BlockDealtWith(id, block, classOf);
    HypothesisLines(line, id, Weave(block, notes), Merged(tail, more), classOf);
    assert [line] + [] == [line];
  }

  lemma GrowsHypothesis(line: string, id: string, block: seq<string>, tail: seq<string>, classOf: ClassOf)
    requires HypId(line) == Some(id) && NoIds(block) && AtBoundary(tail)
    requires NotesFor([line] + (block + tail), classOf)[|block| + |tail|].Some?
    requires tail != [] ==> |tail| > 1 && Grows(tail, NotesFor(tail, classOf), classOf)
    ensures Grows([line] + (block + tail), NotesFor([line] + (block + tail), classOf), classOf)
  {
    var notes := BlockNotes(id, block, classOf);
    HypothesisNotes(line, id, block, tail, classOf, Tally(0, 0, []));
    if tail == [] {
      assert block + tail == block && notes + [] == notes;
      GrowsAtEnd(line, id, block, classOf);
    } else {
      GrowsLater(line, id, block, tail, NotesFor(tail, classOf), classOf);
    }
  }

  lemma TailNote(line: string, id: string, block: seq<string>, tail: seq<string>, classOf: ClassOf)
    requires HypId(line) == Some(id) && NoIds(block) && AtBoundary(tail) && tail != []
    requires NotesFor([line] + (block + tail), classOf)[|block| + |tail|].Some?
    ensures |tail| > 1 && NotesFor(tail, classOf)[|tail| - 1].Some?
  {
    HypothesisNotes(line, id, block, tail, classOf, Tally(0, 0, []));
    assert NotesFor(tail, classOf)[0] == None;
  }

  /** When the last line has its note run into it, the next run adds one more. */
  lemma {:induction false} GrowsAgain(lines: seq<string>, classOf: ClassOf)
    requires lines != [] && NotesFor(lines, classOf)[|lines| - 1].Some?
    ensures Grows(lines, NotesFor(lines, classOf), classOf)
    decreases |lines|
  {
    var line := lines[0];
    match HypId(line)
    case None =>
      var rest := CutHead(lines);
      PlainNotes(line, rest, classOf);
      GrowsAgain(rest, classOf);
      GrowsPlain(line, rest, NotesFor(rest, classOf), classOf);
    case Some(id) =>
      var block, tail := CutBlock(lines);
      if tail != [] {
        TailNote(line, id, block, tail, classOf);
        GrowsAgain(tail, classOf);
      }
      GrowsHypothesis(line, id, block, tail, classOf);
  }

  lemma OpenEndGrows(text: string, classOf: ClassOf)
    requires EndsInOpenAnchor(text, classOf)
    ensures |MigratedText(MigratedText(text, classOf), classOf)| > |MigratedText(text, classOf)|
  {
    var lines := Split(text);
    var notes := NotesFor(lines, classOf);
    SplitIsJoined(text);
    ProperNotesFor(lines, classOf);
    GrowsAgain(lines, classOf);
    ProperNotesFor(Merged(lines, notes), classOf);
    SecondRunIsLonger(lines, notes, NotesFor(Merged(lines, notes), classOf));
  }

  /** Twice is once, except on a file whose last line is an anchor without its newline. */
  lemma IdempotentIff(text: string, classOf: ClassOf)
    ensures MigratedText(MigratedText(text, classOf), classOf) == MigratedText(text, classOf)
            <==> !EndsInOpenAnchor(text, classOf)
  {
    if EndsInOpenAnchor(text, classOf) {
      OpenEndGrows(text, classOf);
    } else {
      SecondRunOnText(text, classOf);
    }
  }

  // ---- the patterns and the new line, spelled out --------------------------

  lemma {:induction false} WordOf(id: string, tail: string)
    requires (forall i :: 0 <= i < |id| ==> !IsSpace(id[i])) && (tail == "" || IsSpace(tail[0]))
    ensures Word(id + tail) == id
  {
    if id == "" {
      assert id + tail == tail;
    } else {
      assert (id + tail)[1..] == id[1..] + tail;
      WordOf(id[1..], tail);
    }
  }

  lemma {:induction false} SpaceIsStripped(tail: string)
    requires AllSpace(tail)
    ensures StripLeft(tail) == ""
  {
    if tail != "" {
      SpaceIsStripped(tail[1..]);
    }
  }

  /** An id line: two spaces, `- id: `, one word, white space. */
  lemma IdLine(id: string, tail: string)
    requires id != "" && AllSpace(tail) && forall i :: 0 <= i < |id| ==> !IsSpace(id[i])
    ensures HypId("  - id: " + (id + tail)) == Some(id)
  {
    var rest := id + tail;
    assert ("  - id: " + rest)[8..] == rest;
    WordOf(id, tail);
    SpaceIsStripped(tail);
    assert rest[|id|..] == tail;
  }

  predicate NoneStarts(prefix: string, lines: seq<string>) {
    forall i :: 0 <= i < |lines| ==> !(prefix <= lines[i])
  }

  lemma {:induction false} HasBugClassIff(block: seq<string>)
    ensures HasBugClass(block) <==> !NoneStarts("    bug_class:", block)
  {
    if block != [] {
      HasBugClassIff(block[1..]);
      assert block == [block[0]] + block[1..];
    }
  }

  lemma FirstIs(before: seq<string>, anchor: string, after: seq<string>, severity: bool)
    requires (forall i :: 0 <= i < |before| ==> !Fits(before[i], severity)) && Fits(anchor, severity)
    ensures First(before + [anchor] + after, severity) == |before|
  {
    var block := before + [anchor] + after;
    assert block[|before|] == anchor && forall i :: 0 <= i < |before| ==> block[i] == before[i];
  }

  /** The first `severity:` line, or, where there is none, the first `class:` line. */
  predicate IsPlace(before: seq<string>, anchor: string, after: seq<string>) {
    ("    severity:" <= anchor && NoneStarts("    severity:", before)) ||
    ("    class:" <= anchor && NoneStarts("    class:", before) &&
     NoneStarts("    severity:", before + [anchor] + after))
  }

  lemma AnchorIs(before: seq<string>, anchor: string, after: seq<string>)
    requires IsPlace(before, anchor, after)
    ensures Anchor(before + [anchor] + after) == |before|
  {
    var block := before + [anchor] + after;
    if "    severity:" <= anchor && NoneStarts("    severity:", before) {
      FirstIs(before, anchor, after, true);
    } else {
      FirstIs(before, anchor, after, false);
    }
  }

  lemma FieldLineSpelled(name: Name)
    ensures FieldLine(name) == "    bug_class: " + name + "\n"
  {
    assert BUG_CLASS + " " == "    bug_class: ";
  }

  lemma PutBehind(before: seq<string>, anchor: string, after: seq<string>, line: string)
    ensures var block := before + [anchor] + after;
            Weave(block, OneNote(|block|, |before|, line)) == before + [anchor] + [line] + after
  {
    var block := before + [anchor] + after;
    SplicedIsWoven(block, |before|, line);
    assert block[..|before| + 1] == before + [anchor] && block[|before| + 1..] == after;
  }

  /** A block without a class whose hypothesis is mapped: the line goes behind that place. */
  lemma NewLineSpelled(id: string, before: seq<string>, anchor: string, after: seq<string>, name: Name,
                       classOf: ClassOf)
    requires classOf(id) == Some(name) && name != "" && NoneStarts("    bug_class:", before + [anchor] + after)
    requires IsPlace(before, anchor, after)
    ensures Weave(before + [anchor] + after, BlockNotes(id, before + [anchor] + after, classOf)) ==
            before + [anchor] + ["    bug_class: " + name + "\n"] + after
  {
    HasBugClassIff(before + [anchor] + after);
    AnchorIs(before, anchor, after);
    FieldLineSpelled(name);
    PutBehind(before, anchor, after, FieldLine(name));
  }

  /** A block that has a class, or neither of the two lines, or no class for its id, stays as it is. */
  lemma BlockStays(id: string, block: seq<string>, classOf: ClassOf)
    ensures Weave(block, BlockNotes(id, block, classOf)) == block <==>
            !NoneStarts("    bug_class:", block) || classOf(id) == None || classOf(id) == Some("") ||
            (NoneStarts("    severity:", block) && NoneStarts("    class:", block))
  {
    HasBugClassIff(block);
    NothingAdded(|block|);
    WeaveNothing(block, NoNotes(|block|));
    AnchorFoundIff(block);
    if VerdictOn(id, block, classOf).Patched? {
      BlockNotesAdded(id, block, classOf);
      WeaveKeepsLines(block, BlockNotes(id, block, classOf));
    }
  }

  lemma AnchorFoundIff(block: seq<string>)
    ensures Anchor(block) == |block| <==> NoneStarts("    severity:", block) && NoneStarts("    class:", block)
  {
    if First(block, true) == |block| {
      assert forall i :: 0 <= i < |block| ==> !Fits(block[i], true);
    }
    if First(block, false) == |block| {
      assert forall i :: 0 <= i < |block| ==> !Fits(block[i], false);
    }
  }
}
