// scripts/add_engine_function_field.py, process_yaml_file: an
// `engine_function:` line behind every `bug_class:` line whose hypothesis has none.
module EngineFunctionMigration {
  import opened Bytes
  import opened Text
  import opened FileLines

  const BUG_CLASS := "    bug_class:"
  const ENGINE_FUNCTION := "    engine_function:"
  const RELEVANT := "    relevant_instructions:"
  const ID := "  - id:"

  /** The name the text suggests; a regular expression's word, so never with a newline. */
  type Name = s: string | '\n' !in s

  type Extractor = string -> Name

  predicate IsWordChar(c: char) {
    IsDigit(c) || 'a' <= c <= 'z' || 'A' <= c <= 'Z' || c == '_'
  }

  /** The prefix and then a white space. */
  predicate HasField(line: string, field: string) {
    field <= line && |line| > |field| && IsSpace(line[|field|])
  }

  predicate IsBugClass(line: string) {
    HasField(line, BUG_CLASS)
  }

  predicate IsEngineFunction(line: string) {
    HasField(line, ENGINE_FUNCTION)
  }

  /** The next hypothesis, or a line that starts in the first column. */
  predicate Stops(line: string) {
    ID <= line || (line != "" && !IsSpace(line[0]))
  }

  predicate OpensRelevant(line: string) {
    RELEVANT <= line && var rest := StripLeft(line[|RELEVANT|..]); rest != "" && rest[0] == '|'
  }

  predicate NextField(line: string) {
    "    " <= line && |line| > 4 && IsWordChar(line[4])
  }

  predicate AlreadyHas(rest: seq<string>) {
    rest != [] && !Stops(rest[0]) && (IsEngineFunction(rest[0]) || AlreadyHas(rest[1..]))
  }

  /** The text of the `relevant_instructions: |` blocks up to the end of the hypothesis. */
  function Relevant(rest: seq<string>, inRelevant: bool): string
    decreases |rest|
  {
    if rest == [] || Stops(rest[0]) then ""
    else if OpensRelevant(rest[0]) then Relevant(rest[1..], true)
    else if !inRelevant || NextField(rest[0]) then Relevant(rest[1..], false)
    else rest[0] + Relevant(rest[1..], true)
  }

  function FieldLine(name: Name): (line: string)
    ensures IsLine(line)
  {
    var s := ENGINE_FUNCTION + " " + name + "\n";
    assert s[..|s| - 1] == ENGINE_FUNCTION + " " + name;
    s
  }

  function NoteFor(line: string, rest: seq<string>, extract: Extractor): Option<string> {
    if IsBugClass(line) && !AlreadyHas(rest) then Some(FieldLine(extract(Relevant(rest, false)))) else None
  }

  function NotesFor(lines: seq<string>, extract: Extractor): (r: Notes)
    ensures |r| == |lines|
  {
    if lines == [] then [] else [NoteFor(lines[0], lines[1..], extract)] + NotesFor(lines[1..], extract)
  }

  function Migrated(lines: seq<string>, extract: Extractor): seq<string> {
    Weave(lines, NotesFor(lines, extract))
  }

  // ---- the script ----------------------------------------------------------

  method FindEngineFunction(lines: seq<string>, i: nat) returns (alreadyHas: bool)
    requires i <= |lines|
    ensures alreadyHas == AlreadyHas(lines[i..])
  {
    alreadyHas := false;
    var j := i;
    while j < |lines|
      invariant i <= j <= |lines| && !alreadyHas
      invariant AlreadyHas(lines[i..]) == AlreadyHas(lines[j..])
    {
      assert lines[j..][1..] == lines[j + 1..];
      if Stops(lines[j]) {
        break;
      }
      if IsEngineFunction(lines[j]) {
        alreadyHas := true;
        break;
      }
      j := j + 1;
    }
  }

  lemma JoinOneMore(lines: seq<string>, line: string, more: string)
    ensures Join(lines + [line]) + more == Join(lines) + (line + more)
  {
    JoinConcat(lines, [line]);
    assert [line][1..] == [] && Join([line]) == line + "" == line;
    Regroup(Join(lines), line, more);
  }

  lemma RelevantAt(lines: seq<string>, j: nat, inRelevant: bool)
    requires j < |lines|
    ensures Relevant(lines[j..], inRelevant) ==
            if Stops(lines[j]) then ""
            else if OpensRelevant(lines[j]) then Relevant(lines[j + 1..], true)
            else if !inRelevant || NextField(lines[j]) then Relevant(lines[j + 1..], false)
            else lines[j] + Relevant(lines[j + 1..], true)
  {
    assert lines[j..][1..] == lines[j + 1..];
  }

  /** A line that ends the block is looked at twice: `j` stays and `inRelevant` falls. */
  method CollectRelevant(lines: seq<string>, i: nat) returns (relevant: seq<string>)
    requires i <= |lines|
    ensures Join(relevant) == Relevant(lines[i..], false)
  {
    relevant := [];
    var inRelevant := false;
    var j := i;
    while j < |lines|
      invariant i <= j <= |lines|
      invariant Join(relevant) + Relevant(lines[j..], inRelevant) == Relevant(lines[i..], false)
      decreases |lines| - j, if inRelevant then 1 else 0
    {
      var sub := lines[j];
      RelevantAt(lines, j, inRelevant);
      RelevantAt(lines, j, false);
      if Stops(sub) {
        break;
      }
      if OpensRelevant(sub) {
        inRelevant := true;
        j := j + 1;
        continue;
      }
      if inRelevant {
        if NextField(sub) {
          inRelevant := false;
          continue;
        }
        JoinOneMore(relevant, sub, Relevant(lines[j + 1..], true));
        relevant := relevant + [sub];
      }
      j := j + 1;
    }
    assert Join(relevant) + "" == Join(relevant);
  }

  /** What one turn of the loop adds behind the line at `i`. */
  method LineToAdd(lines: seq<string>, i: nat, extract: Extractor) returns (note: Option<string>)
    requires i < |lines|
    ensures note == NoteFor(lines[i], lines[i + 1..], extract)
  {
    note := None;
    if IsBugClass(lines[i]) {
      var alreadyHas := FindEngineFunction(lines, i + 1);
      if !alreadyHas {
        var relevant := CollectRelevant(lines, i + 1);
        note := Some(FieldLine(extract(Join(relevant))));
      }
    }
  }

  method ProcessYamlFile(text: string, extract: Extractor) returns (after: string, modified: nat)
    ensures after == Join(Migrated(Split(text), extract))
    ensures modified == Added(NotesFor(Split(text), extract))
  {
    var lines := Split(text);
    var out: seq<string> := [];
    modified := 0;
    var i := 0;
    while i < |lines|
      invariant i <= |lines|
      invariant out + Migrated(lines[i..], extract) == Migrated(lines, extract)
      invariant modified + Added(NotesFor(lines[i..], extract)) == Added(NotesFor(lines, extract))
    {
      var note := LineToAdd(lines, i, extract);
      MigratedCons(lines[i], lines[i + 1..], extract);
      assert lines[i..] == [lines[i]] + lines[i + 1..];
      Rehead([lines[i]], Note(note), Migrated(lines[i + 1..], extract));
      Regroup(out, [lines[i]] + Note(note), Migrated(lines[i + 1..], extract));
      out := out + ([lines[i]] + Note(note));
      if note.Some? {
        modified := modified + 1;
      }
      i := i + 1;
    }
    assert out + [] == out;
    after := Join(out);
  }

  lemma MigratedCons(line: string, rest: seq<string>, extract: Extractor)
    ensures Migrated([line] + rest, extract) == [line] + Note(NoteFor(line, rest, extract)) + Migrated(rest, extract)
    ensures NotesFor([line] + rest, extract) == [NoteFor(line, rest, extract)] + NotesFor(rest, extract)
    ensures Added(NotesFor([line] + rest, extract)) ==
            (if NoteFor(line, rest, extract).Some? then 1 else 0) + Added(NotesFor(rest, extract))
  {
    var note := NoteFor(line, rest, extract);
    assert ([line] + rest)[1..] == rest;
    WeaveCons(line, rest, note, NotesFor(rest, extract));
    assert ([note] + NotesFor(rest, extract))[1..] == NotesFor(rest, extract);
  }

  // ---- running it twice ----------------------------------------------------

  lemma FieldLineHasField(name: Name)
    ensures IsEngineFunction(FieldLine(name)) && !IsBugClass(FieldLine(name)) && !Stops(FieldLine(name))
  {
    var s := FieldLine(name);
    assert s[4] == 'e' && s[2] == ' ' && s[0] == ' ' && s[|ENGINE_FUNCTION|] == ' ';
    assert BUG_CLASS[4] == 'b' && ID[2] == '-';
  }

  /** The lines added by the script do not hide the field from a scan that starts before them. */
  lemma {:induction false} StillHas(lines: seq<string>, extract: Extractor)
    requires AlreadyHas(lines)
    ensures AlreadyHas(Migrated(lines, extract))
  {
    var note := NoteFor(lines[0], lines[1..], extract);
    var rest := Migrated(lines[1..], extract);
    assert lines == [lines[0]] + lines[1..];
    MigratedCons(lines[0], lines[1..], extract);
    if !IsEngineFunction(lines[0]) {
      StillHas(lines[1..], extract);
      HasBehind(note, rest, extract(Relevant(lines[1..], false)));
      assert ([lines[0]] + Note(note) + rest)[1..] == Note(note) + rest;
    }
  }

  lemma HasBehind(note: Option<string>, rest: seq<string>, name: Name)
    requires note == None || note == Some(FieldLine(name))
    requires note == None ==> AlreadyHas(rest)
    ensures AlreadyHas(Note(note) + rest)
  {
    FieldLineHasField(name);
    if note == None {
      assert Note(note) + rest == rest;
    }
  }

  lemma {:induction false} ProperNotesFor(lines: seq<string>, extract: Extractor)
    ensures ProperNotes(NotesFor(lines, extract))
  {
    if lines != [] {
      var note := NoteFor(lines[0], lines[1..], extract);
      ProperNotesFor(lines[1..], extract);
      assert ([note] + NotesFor(lines[1..], extract))[1..] == NotesFor(lines[1..], extract);
    }
  }

  /** After a line that the script has dealt with, it adds nothing more. */
  lemma DealtWith(line: string, note: Option<string>, rest: seq<string>, name: Name, extract: Extractor)
    requires note == None || note == Some(FieldLine(name))
    requires IsBugClass(line) && note == None ==> AlreadyHas(rest)
    requires Added(NotesFor(rest, extract)) == 0
    ensures Added(NotesFor([line] + Note(note) + rest, extract)) == 0
  {
    FieldLineHasField(name);
    MigratedCons(line, Note(note) + rest, extract);
    assert [line] + Note(note) + rest == [line] + (Note(note) + rest);
    if note == None {
      assert Note(note) + rest == rest;
    } else {
      MigratedCons(FieldLine(name), rest, extract);
      HasBehind(note, rest, name);
    }
  }

  /** On the lines it has written, the script adds nothing. */
  lemma {:induction false} SecondRunAddsNothing(lines: seq<string>, extract: Extractor)
    ensures Added(NotesFor(Migrated(lines, extract), extract)) == 0
  {
    if lines != [] {
      var rest := lines[1..];
      SecondRunAddsNothing(rest, extract);
      MigratedCons(lines[0], rest, extract);
      assert lines == [lines[0]] + rest;
      if AlreadyHas(rest) {
        StillHas(rest, extract);
      }
      var name := extract(Relevant(rest, false));
      DealtWith(lines[0], NoteFor(lines[0], rest, extract), Migrated(rest, extract), name, extract);
    }
  }

  lemma {:induction false} NotesAt(lines: seq<string>, i: nat, extract: Extractor)
    requires i < |lines|
    ensures NotesFor(lines, extract)[i] == NoteFor(lines[i], lines[i + 1..], extract)
  {
    if i > 0 {
      var note := NoteFor(lines[0], lines[1..], extract);
      NotesAt(lines[1..], i - 1, extract);
      assert ([note] + NotesFor(lines[1..], extract))[i] == NotesFor(lines[1..], extract)[i - 1];
      assert lines[1..][i..] == lines[i + 1..];
    }
  }

  /** Behind line `i` there is an `engine_function:` line before the next line at which the scan stops. */
  ghost predicate EngineBehind(lines: seq<string>, i: nat) {
    exists j :: i < j < |lines| && IsEngineFunction(lines[j]) && forall k :: i < k < j ==> !Stops(lines[k])
  }

  lemma EngineNeverStops(line: string)
    ensures IsEngineFunction(line) ==> !Stops(line) && !IsBugClass(line)
    ensures IsBugClass(line) ==> !Stops(line)
  {
    assert ENGINE_FUNCTION[4] == 'e' && BUG_CLASS[4] == 'b';
    assert ENGINE_FUNCTION[2] == BUG_CLASS[2] == ENGINE_FUNCTION[0] == BUG_CLASS[0] == ' ' && ID[2] == '-';
  }

  lemma {:induction false} AlreadyHasIff(lines: seq<string>, i: nat)
    requires i < |lines|
    ensures AlreadyHas(lines[i + 1..]) <==> EngineBehind(lines, i)
    decreases |lines| - i
  {
    var rest := lines[i + 1..];
    if rest != [] {
      assert rest[0] == lines[i + 1] && rest[1..] == lines[i + 1 + 1..];
      EngineNeverStops(lines[i + 1]);
      AlreadyHasIff(lines, i + 1);
      assert EngineBehind(lines, i) <==>
        IsEngineFunction(lines[i + 1]) || (!Stops(lines[i + 1]) && EngineBehind(lines, i + 1));
    }
  }

  /** A line is added exactly behind the `bug_class:` lines behind which the scan finds no `engine_function:` line. */
  lemma NoteAt(lines: seq<string>, i: nat, extract: Extractor)
    requires i < |lines|
    ensures NotesFor(lines, extract)[i]
         == if IsBugClass(lines[i]) && !EngineBehind(lines, i) then
              Some(FieldLine(extract(Relevant(lines[i + 1..], false))))
            else None
  {
    NotesAt(lines, i, extract);
    AlreadyHasIff(lines, i);
  }

  lemma LastNote(lines: seq<string>, extract: Extractor)
    requires lines != []
    ensures NotesFor(lines, extract)[|lines| - 1].Some? <==> IsBugClass(lines[|lines| - 1])
  {
    NoteAt(lines, |lines| - 1, extract);
  }

  function MigratedText(text: string, extract: Extractor): string {
    Join(Migrated(Split(text), extract))
  }

  /** The file ends in a `bug_class:` line without a newline. */
  predicate EndsInOpenBugClass(text: string) {
    var lines := Split(text);
    lines != [] && IsOpenLine(lines[|lines| - 1]) && IsBugClass(lines[|lines| - 1])
  }

  lemma SecondRunOnText(text: string, extract: Extractor)
    requires !EndsInOpenBugClass(text)
    ensures MigratedText(MigratedText(text, extract), extract) == MigratedText(text, extract)
  {
    var lines := Split(text);
    var notes := NotesFor(lines, extract);
    var after := Migrated(lines, extract);
    SplitIsJoined(text);
    ProperNotesFor(lines, extract);
    if lines != [] {
      LastNote(lines, extract);
    }
    WovenIsSplittable(lines, notes);
    JoinedIsSplit(after);
    SecondRunAddsNothing(lines, extract);
    WeaveNothing(after, NotesFor(after, extract));
  }

  lemma LongerField(open: string, more: string)
    requires IsBugClass(open)
    ensures IsBugClass(open + more)
  {
  }

  lemma NotesAgain(lines: seq<string>, extract: Extractor)
    requires lines != [] && IsBugClass(lines[|lines| - 1]) && NotesFor(lines, extract)[|lines| - 1].Some?
    ensures Added(NotesFor(Merged(lines, NotesFor(lines, extract)), extract)) > 0
  {
    var notes := NotesFor(lines, extract);
    var again := Merged(lines, notes);
    MergedLast(lines, notes);
    LongerField(lines[|lines| - 1], notes[|notes| - 1].value);
    LastNote(again, extract);
    AddedAt(NotesFor(again, extract), |again| - 1);
  }

  lemma OpenEndGrows(text: string, extract: Extractor)
    requires EndsInOpenBugClass(text)
    ensures |MigratedText(MigratedText(text, extract), extract)| > |MigratedText(text, extract)|
  {
    var lines := Split(text);
    var notes := NotesFor(lines, extract);
    SplitIsJoined(text);
    ProperNotesFor(lines, extract);
    LastNote(lines, extract);
    NotesAgain(lines, extract);
    ProperNotesFor(Merged(lines, notes), extract);
    SecondRunIsLonger(lines, notes, NotesFor(Merged(lines, notes), extract));
  }

  /** Twice is once, except on a file that ends in an unterminated `bug_class:` line. */
  lemma IdempotentIff(text: string, extract: Extractor)
    ensures MigratedText(MigratedText(text, extract), extract) == MigratedText(text, extract)
            <==> !EndsInOpenBugClass(text)
  {
    if EndsInOpenBugClass(text) {
      OpenEndGrows(text, extract);
    } else {
      SecondRunOnText(text, extract);
    }
  }

  /** Every line stays, in order; the rest are the added lines, each an `engine_function:` line. */
  lemma OnlyAddsLines(lines: seq<string>, extract: Extractor)
    ensures Subsequence(lines, Migrated(lines, extract))
    ensures |Migrated(lines, extract)| == |lines| + Added(NotesFor(lines, extract))
    ensures forall i :: 0 <= i < |lines| && NotesFor(lines, extract)[i].Some? ==>
                          IsEngineFunction(NotesFor(lines, extract)[i].value) && IsBugClass(lines[i])
  {
    WeaveKeepsLines(lines, NotesFor(lines, extract));
    forall i | 0 <= i < |lines| && NotesFor(lines, extract)[i].Some?
      ensures IsEngineFunction(NotesFor(lines, extract)[i].value) && IsBugClass(lines[i])
    {
      NotesAt(lines, i, extract);
      FieldLineHasField(extract(Relevant(lines[i + 1..], false)));
    }
  }

  /** Afterwards every hypothesis with a `bug_class:` has an `engine_function:` behind it. */
  lemma {:induction false} EveryBugClassHas(lines: seq<string>, extract: Extractor, i: nat)
    requires i < |Migrated(lines, extract)| && IsBugClass(Migrated(lines, extract)[i])
    ensures AlreadyHas(Migrated(lines, extract)[i + 1..])
  {
    SecondRunAddsNothing(lines, extract);
    QuietLine(Migrated(lines, extract), i, extract);
  }

  lemma {:induction false} QuietLine(lines: seq<string>, i: nat, extract: Extractor)
    requires i < |lines| && Added(NotesFor(lines, extract)) == 0 && IsBugClass(lines[i])
    ensures AlreadyHas(lines[i + 1..])
  {
    var note := NoteFor(lines[0], lines[1..], extract);
    assert lines == [lines[0]] + lines[1..];
    MigratedCons(lines[0], lines[1..], extract);
    if i > 0 {
      QuietLine(lines[1..], i - 1, extract);
      assert lines[1..][i..] == lines[i + 1..];
    }
  }

  // ---- hypotheses that end with the field twice ----------------------------

  /** The scans of an earlier hypothesis go no further than this. */
  predicate Boundary(tail: seq<string>) {
    tail == [] || Stops(tail[0])
  }

  lemma {:induction false} ScansEndThere(block: seq<string>, tail: seq<string>, inRelevant: bool)
    requires Boundary(tail)
    ensures AlreadyHas(block + tail) <==> AlreadyHas(block)
    ensures Relevant(block + tail, inRelevant) == Relevant(block, inRelevant)
    decreases |block|
  {
    if block == [] {
      assert block + tail == tail;
    } else {
      assert (block + tail)[1..] == block[1..] + tail;
      ScansEndThere(block[1..], tail, true);
      ScansEndThere(block[1..], tail, false);
    }
  }

  lemma HypothesisStep(line: string, rest: seq<string>, tail: seq<string>, extract: Extractor)
    requires Boundary(tail)
    requires Migrated(rest + tail, extract) == Migrated(rest, extract) + Migrated(tail, extract)
    ensures Migrated([line] + rest + tail, extract) == Migrated([line] + rest, extract) + Migrated(tail, extract)
  {
    ScansEndThere(rest, tail, false);
    MigratedCons(line, rest, extract);
    Regroup([line], rest, tail);
    MigratedCons(line, rest + tail, extract);
    Regroup([line] + Note(NoteFor(line, rest, extract)), Migrated(rest, extract), Migrated(tail, extract));
  }

  /** The file is migrated hypothesis by hypothesis. */
  lemma {:induction false} HypothesisByHypothesis(block: seq<string>, tail: seq<string>, extract: Extractor)
    requires Boundary(tail)
    ensures Migrated(block + tail, extract) == Migrated(block, extract) + Migrated(tail, extract)
  {
    if block == [] {
      assert block + tail == tail && Migrated(block, extract) == [];
    } else {
      HypothesisByHypothesis(block[1..], tail, extract);
      HypothesisStep(block[0], block[1..], tail, extract);
      assert block == [block[0]] + block[1..];
    }
  }

  /** How many `engine_function:` lines there are. */
  function Engines(lines: seq<string>): nat {
    if lines == [] then 0 else (if IsEngineFunction(lines[0]) then 1 else 0) + Engines(lines[1..])
  }

  lemma {:induction false} EnginesConcat(a: seq<string>, b: seq<string>)
    ensures Engines(a + b) == Engines(a) + Engines(b)
  {
    if a == [] {
      assert a + b == b;
    } else {
      assert (a + b)[1..] == a[1..] + b;
      EnginesConcat(a[1..], b);
    }
  }

  /** How many `bug_class:` lines the scan finds no field behind. */
  function Bare(block: seq<string>): nat {
    if block == [] then 0 else (if IsBugClass(block[0]) && !AlreadyHas(block[1..]) then 1 else 0) + Bare(block[1..])
  }

  lemma NoteCounts(note: Option<string>, name: Name)
    requires note == None || note == Some(FieldLine(name))
    ensures Engines(Note(note)) == if note.Some? then 1 else 0
  {
    FieldLineHasField(name);
    if note.Some? {
      assert Note(note)[1..] == [];
    }
  }

  /** Any lines gain one `engine_function:` line for every `bug_class:` line that the scan finds none behind. */
  lemma {:induction false} EnginesAfter(block: seq<string>, extract: Extractor)
    ensures Engines(Migrated(block, extract)) == Engines(block) + Bare(block)
  {
    if block != [] {
      var rest := block[1..];
      var note := NoteFor(block[0], rest, extract);
      EnginesAfter(rest, extract);
      assert block == [block[0]] + rest;
      MigratedCons(block[0], rest, extract);
      EnginesConcat([block[0]] + Note(note), Migrated(rest, extract));
      EnginesConcat([block[0]], Note(note));
      NoteCounts(note, extract(Relevant(rest, false)));
      assert [block[0]][1..] == [];
    }
  }

  /** The lines of one hypothesis behind its `- id:` line, comments and anything else in the first column included. */
  predicate IsHypothesis(block: seq<string>) {
    forall i :: 0 <= i < |block| ==> !(ID <= block[i])
  }

  /** Line `i` is an `engine_function:` line, or gets one behind it. */
  ghost predicate Yields(block: seq<string>, i: nat) {
    i < |block| && (IsEngineFunction(block[i]) || (IsBugClass(block[i]) && !EngineBehind(block, i)))
  }

  /** Two lines do. */
  ghost predicate EndsWithTwo(block: seq<string>) {
    exists i: nat, j: nat :: i < j && Yields(block, i) && Yields(block, j)
  }

  lemma YieldsFirst(line: string, rest: seq<string>)
    ensures Yields([line] + rest, 0) <==> IsEngineFunction(line) || (IsBugClass(line) && !AlreadyHas(rest))
  {
    AlreadyHasIff([line] + rest, 0);
    assert ([line] + rest)[1..] == rest;
  }

  lemma YieldsLater(line: string, rest: seq<string>, i: nat)
    ensures Yields([line] + rest, i + 1) <==> Yields(rest, i)
  {
    if i < |rest| {
      AlreadyHasIff([line] + rest, i + 1);
      AlreadyHasIff(rest, i);
      assert ([line] + rest)[i + 1 + 1..] == rest[i + 1..];
    }
  }

  lemma {:induction false} OnceIff(block: seq<string>)
    ensures Engines(block) + Bare(block) >= 1 <==> exists i: nat :: Yields(block, i)
  {
    if block != [] {
      var line, rest := block[0], block[1..];
      assert block == [line] + rest;
      OnceIff(rest);
      YieldsFirst(line, rest);
      if i: nat :| Yields(rest, i) {
        YieldsLater(line, rest, i);
      }
      if i: nat :| Yields(block, i) && i > 0 {
        YieldsLater(line, rest, i - 1);
      }
    }
  }

  lemma TwoFromTail(line: string, rest: seq<string>)
    requires (Yields([line] + rest, 0) && exists i: nat :: Yields(rest, i)) || EndsWithTwo(rest)
    ensures EndsWithTwo([line] + rest)
  {
    if i: nat, j: nat :| i < j && Yields(rest, i) && Yields(rest, j) {
      YieldsLater(line, rest, i);
      YieldsLater(line, rest, j);
    } else {
      var i: nat :| Yields(rest, i);
      YieldsLater(line, rest, i);
    }
  }

  lemma TwoOfCons(line: string, rest: seq<string>)
    requires EndsWithTwo([line] + rest)
    ensures (Yields([line] + rest, 0) && exists i: nat :: Yields(rest, i)) || EndsWithTwo(rest)
  {
    var i: nat, j: nat :| i < j && Yields([line] + rest, i) && Yields([line] + rest, j);
    YieldsLater(line, rest, j - 1);
    if i > 0 {
      YieldsLater(line, rest, i - 1);
    }
  }

  lemma {:induction false} TwiceIff(block: seq<string>)
    ensures Engines(block) + Bare(block) >= 2 <==> EndsWithTwo(block)
  {
    if block != [] {
      var line, rest := block[0], block[1..];
      assert block == [line] + rest;
      EngineNeverStops(line);
      TwiceIff(rest);
      OnceIff(rest);
      YieldsFirst(line, rest);
      if EndsWithTwo(block) {
        TwoOfCons(line, rest);
      } else if EndsWithTwo(rest) || (Yields(block, 0) && Engines(rest) + Bare(rest) >= 1) {
        TwoFromTail(line, rest);
      }
    }
  }

  /**
   * Exactly which hypotheses of a file end with the field twice: those with two
   * lines that are the field or a `bug_class:` line behind which the scan, up to the
   * next line in the first column, finds none.
   */
  lemma FieldTwiceIff(before: seq<string>, id: string, block: seq<string>, tail: seq<string>, extract: Extractor)
    requires ID <= id && IsHypothesis(block) && (tail == [] || ID <= tail[0])
    ensures Migrated(before + (([id] + block) + tail), extract)
         == Migrated(before, extract) + (([id] + Migrated(block, extract)) + Migrated(tail, extract))
    ensures Engines(Migrated(block, extract)) >= 2 <==> EndsWithTwo(block)
  {
    HypothesisByHypothesis(before, ([id] + block) + tail, extract);
    HypothesisByHypothesis([id] + block, tail, extract);
    MigratedCons(id, block, extract);
    EngineNeverStops(id);
    assert [id] + [] == [id];
    EnginesAfter(block, extract);
    TwiceIff(block);
  }

  /** The field behind a line in the first column, a comment say: the script adds it a second time. */
  lemma FieldBehindColumnOne(id: string, bugClass: string, note: string, engine: string, extract: Extractor)
    requires ID <= id && IsBugClass(bugClass) && Stops(note) && !(ID <= note) && IsEngineFunction(engine)
    ensures IsHypothesis([bugClass, note, engine])
    ensures Migrated([id, bugClass, note, engine], extract) == [id, bugClass, FieldLine(extract("")), note, engine]
  {
    EngineNeverStops(engine);
    EngineNeverStops(bugClass);
    EngineNeverStops(note);
    EngineNeverStops(id);
    MigratedCons(engine, [], extract);
    MigratedCons(note, [engine], extract);
    MigratedCons(bugClass, [note, engine], extract);
    MigratedCons(id, [bugClass, note, engine], extract);
    assert [engine] + [] == [engine] && [note] + [engine] == [note, engine];
    assert [bugClass] + [note, engine] == [bugClass, note, engine];
    assert [id] + [bugClass, note, engine] == [id, bugClass, note, engine];
  }

  /** The field before its `bug_class:` line: the script adds it a second time. */
  lemma FieldBeforeClass(id: string, engine: string, bugClass: string, extract: Extractor)
    requires Stops(id) && IsEngineFunction(engine) && IsBugClass(bugClass)
    ensures Migrated([id, engine, bugClass], extract) == [id, engine, bugClass, FieldLine(extract(""))]
  {
    EngineNeverStops(engine);
    EngineNeverStops(id);
    MigratedCons(bugClass, [], extract);
    MigratedCons(engine, [bugClass], extract);
    MigratedCons(id, [engine, bugClass], extract);
    assert [bugClass] + [] == [bugClass] && [engine] + [bugClass] == [engine, bugClass];
    assert [id] + [engine, bugClass] == [id, engine, bugClass];
  }

  // ---- the patterns, spelled out -------------------------------------------

  /** What the four patterns take. */
  lemma PatternsSpelled(line: string)
    ensures IsBugClass(line) <==> "    bug_class:" <= line && |line| > 14 && IsSpace(line[14])
    ensures IsEngineFunction(line) <==> "    engine_function:" <= line && |line| > 20 && IsSpace(line[20])
    ensures Stops(line) <==> "  - id:" <= line || (line != "" && !IsSpace(line[0]))
    ensures OpensRelevant("    relevant_instructions:" + line) <==> StripLeft(line) != "" && StripLeft(line)[0] == '|'
  {
    assert ("    relevant_instructions:" + line)[26..] == line;
  }

  lemma FieldLineSpelled(name: Name)
    ensures FieldLine(name) == "    engine_function: " + name + "\n"
  {
    assert ENGINE_FUNCTION + " " == "    engine_function: ";
  }

  lemma InstructionsAre(text: string, title: string)
    requires "      " <= text && "    t" <= title && !IsEngineFunction(title)
    ensures Relevant(["    relevant_instructions: |\n", text, title], false) == text
    ensures !AlreadyHas(["    relevant_instructions: |\n", text, title])
  {
    var opens := "    relevant_instructions: |\n";
    LineKinds(text, title);
    OpensIs();
    assert [opens, text, title][1..] == [text, title] && [text, title][1..] == [title] && [title][1..] == [];
    assert Relevant([title], true) == "" && text + "" == text;
    assert Relevant([text, title], true) == text;
    assert !AlreadyHas([title]) && !AlreadyHas([text, title]);
  }

  lemma PlainLine(line: string, rest: seq<string>, extract: Extractor)
    requires !IsBugClass(line)
    ensures Migrated([line] + rest, extract) == [line] + Migrated(rest, extract)
  {
    MigratedCons(line, rest, extract);
    assert [line] + [] == [line];
  }

  lemma ThreePlainLines(a: string, b: string, c: string, extract: Extractor)
    requires !IsBugClass(a) && !IsBugClass(b) && !IsBugClass(c)
    ensures Migrated([a, b, c], extract) == [a, b, c]
  {
    PlainLine(c, [], extract);
    PlainLine(b, [c], extract);
    PlainLine(a, [b, c], extract);
    assert [c] + [] == [c] && [b] + [c] == [b, c] && [a] + [b, c] == [a, b, c];
  }

  /** A hypothesis whose instructions are one indented line: the name comes from that line, and nothing is moved. */
  lemma InstructionsAreRead(id: string, bugClass: string, text: string, title: string, extract: Extractor)
    requires "  - id:" <= id && IsBugClass(bugClass) && "      " <= text && "    t" <= title && !IsEngineFunction(title)
    ensures Migrated([id, bugClass, "    relevant_instructions: |\n", text, title], extract) ==
            [id, bugClass, "    engine_function: " + extract(text) + "\n",
             "    relevant_instructions: |\n", text, title]
  {
    var opens := "    relevant_instructions: |\n";
    var rest := [opens, text, title];
    LineKinds(text, title);
    OpensIs();
    InstructionsAre(text, title);
    ThreePlainLines(opens, text, title, extract);
    EngineNeverStops(bugClass);
    MigratedCons(bugClass, rest, extract);
    EngineNeverStops(id);
    PlainLine(id, [bugClass] + rest, extract);
    FieldLineSpelled(extract(text));
    assert [id] + ([bugClass] + rest) == [id, bugClass, opens, text, title];
    assert [id] + ([bugClass] + [FieldLine(extract(text))] + rest)
        == [id, bugClass, FieldLine(extract(text)), opens, text, title];
  }

  lemma LineKinds(text: string, title: string)
    requires "      " <= text && "    t" <= title
    ensures !Stops(text) && !OpensRelevant(text) && !NextField(text) && !IsBugClass(text) && !IsEngineFunction(text)
    ensures !Stops(title) && !OpensRelevant(title) && NextField(title) && !IsBugClass(title)
  {
    assert text[0] == text[2] == text[4] == ' ' && title[0] == title[2] == ' ' && title[4] == 't';
    assert BUG_CLASS[4] == 'b' && ENGINE_FUNCTION[4] == 'e' && RELEVANT[4] == 'r' && ID[2] == '-';
  }

  lemma OpensIs()
    ensures var opens := "    relevant_instructions: |\n";
            OpensRelevant(opens) && !Stops(opens) && !IsBugClass(opens) && !IsEngineFunction(opens)
  {
    var opens := "    relevant_instructions: |\n";
    assert opens[26..] == " |\n" && opens[26..][1..] == "|\n";
    assert opens[0] == opens[2] == ' ' && opens[4] == 'r';
    assert BUG_CLASS[4] == 'b' && ENGINE_FUNCTION[4] == 'e' && ID[2] == '-';
  }
}
