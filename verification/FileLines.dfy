// What the two migration scripts share: splitting a file into lines that keep
// their newline, joining them again, and adding lines behind lines.
module FileLines {
  import opened Bytes
  import opened Text

  /** str.splitlines(keepends=True), for "\n" line ends. */
  function Split(text: string): seq<string>
    decreases |text|
  {
    if text == "" then []
    else
      var k := LineEnd(text);
      if k == |text| then [text] else [text[..k + 1]] + Split(text[k + 1..])
  }

  /** "".join(lines) */
  function Join(lines: seq<string>): string {
    if lines == [] then "" else lines[0] + Join(lines[1..])
  }

  /** One newline, at the end. */
  predicate IsLine(s: string) {
    s != "" && s[|s| - 1] == '\n' && '\n' !in s[..|s| - 1]
  }

  predicate IsOpenLine(s: string) {
    s != "" && '\n' !in s
  }

  /** Lines, the last of which may lack its newline. */
  predicate Splittable(lines: seq<string>) {
    lines == [] ||
    (IsLine(lines[0]) && Splittable(lines[1..])) ||
    (|lines| == 1 && IsOpenLine(lines[0]))
  }

  lemma SplitLine(line: string, rest: string)
    requires IsLine(line)
    ensures Split(line + rest) == [line] + Split(rest)
  {
    var n := |line| - 1;
    LineEndOf(line[..n], rest);
    assert line == line[..n] + ['\n'];
    assert line + rest == line[..n] + (['\n'] + rest);
    assert (line + rest)[..n + 1] == line && (line + rest)[n + 1..] == rest;
  }

  lemma {:induction false} JoinedIsSplit(lines: seq<string>)
    requires Splittable(lines)
    ensures Split(Join(lines)) == lines
  {
    if lines != [] {
      if IsLine(lines[0]) && Splittable(lines[1..]) {
        SplitLine(lines[0], Join(lines[1..]));
        JoinedIsSplit(lines[1..]);
      } else {
        assert Join(lines[1..]) == "" && lines[0] + "" == lines[0];
      }
    }
  }

  lemma Halves(text: string, k: nat)
    requires k < |text|
    ensures text == text[..k + 1] + text[k + 1..] && text[..k + 1][..k] == text[..k]
  {
  }

  lemma FirstOff(text: string)
    requires LineEnd(text) < |text|
    ensures IsLine(text[..LineEnd(text) + 1])
    ensures text == text[..LineEnd(text) + 1] + text[LineEnd(text) + 1..]
  {
    Halves(text, LineEnd(text));
  }

  lemma {:induction false} SplitIsJoined(text: string)
    ensures Join(Split(text)) == text && Splittable(Split(text))
    decreases |text|
  {
    if text != "" {
      var k := LineEnd(text);
      if k == |text| {
        assert text[..k] == text;
        assert [text][1..] == [];
      } else {
        FirstOff(text);
        var rest := Split(text[k + 1..]);
        SplitIsJoined(text[k + 1..]);
        assert ([text[..k + 1]] + rest)[1..] == rest;
      }
    }
  }

  // ---- adding lines behind lines -------------------------------------------

  type Notes = seq<Option<string>>

  function Note(n: Option<string>): seq<string> {
    match n
    case None => []
    case Some(line) => [line]
  }

  /** Every line followed by its note. */
  function Weave(lines: seq<string>, notes: Notes): (r: seq<string>)
    requires |lines| == |notes|
    ensures |r| >= |lines|
    ensures lines != [] ==> r != [] && r[0] == lines[0]
  {
    if lines == [] then [] else [lines[0]] + Note(notes[0]) + Weave(lines[1..], notes[1..])
  }

  function NoNotes(n: nat): (r: Notes)
    ensures |r| == n
  {
    seq(n, _ => None)
  }

  function Added(notes: Notes): nat {
    if notes == [] then 0 else (if notes[0].Some? then 1 else 0) + Added(notes[1..])
  }

  /** Every note is a line of its own. */
  predicate ProperNotes(notes: Notes) {
    notes == [] || ((notes[0].Some? ==> IsLine(notes[0].value)) && ProperNotes(notes[1..]))
  }

  predicate Subsequence<T(==)>(xs: seq<T>, ys: seq<T>)
    decreases |ys|
  {
    xs == [] || (ys != [] && ((xs[0] == ys[0] && Subsequence(xs[1..], ys[1..])) || Subsequence(xs, ys[1..])))
  }

  lemma WeaveCons(line: string, lines: seq<string>, n: Option<string>, notes: Notes)
    requires |lines| == |notes|
    ensures Weave([line] + lines, [n] + notes) == [line] + Note(n) + Weave(lines, notes)
  {
    assert ([line] + lines)[1..] == lines && ([n] + notes)[1..] == notes;
  }

  lemma Rehead<T>(head: seq<T>, x: seq<T>, y: seq<T>)
    requires head != []
    ensures [head[0]] + (head[1..] + x) == head + x
    ensures (head + x) + y == head + (x + y)
  {
  }

  lemma {:induction false} WeaveConcat(a: seq<string>, na: Notes, b: seq<string>, nb: Notes)
    requires |a| == |na| && |b| == |nb|
    ensures Weave(a + b, na + nb) == Weave(a, na) + Weave(b, nb)
  {
    if a == [] {
      assert a + b == b && na + nb == nb;
    } else {
      WeaveConcat(a[1..], na[1..], b, nb);
      WeaveCons(a[0], a[1..] + b, na[0], na[1..] + nb);
      Rehead(a, b, []);
      Rehead(na, nb, []);
      Rehead([a[0]] + Note(na[0]), Weave(a[1..], na[1..]), Weave(b, nb));
    }
  }

  lemma {:induction false} WeaveNothing(lines: seq<string>, notes: Notes)
    requires |lines| == |notes| && Added(notes) == 0
    ensures Weave(lines, notes) == lines && notes == NoNotes(|lines|)
  {
    if lines != [] {
      WeaveNothing(lines[1..], notes[1..]);
      assert lines == [lines[0]] + [] + lines[1..];
      assert notes == [notes[0]] + notes[1..];
    }
  }

  lemma {:induction false} NothingAdded(n: nat)
    ensures Added(NoNotes(n)) == 0
  {
    if n > 0 {
      NothingAdded(n - 1);
      assert NoNotes(n)[1..] == NoNotes(n - 1);
    }
  }

  lemma {:induction false} AddedAt(notes: Notes, i: nat)
    requires i < |notes| && notes[i].Some?
    ensures Added(notes) > 0
  {
    if i > 0 {
      AddedAt(notes[1..], i - 1);
    }
  }

  lemma {:induction false} AddedConcat(a: Notes, b: Notes)
    ensures Added(a + b) == Added(a) + Added(b)
    ensures ProperNotes(a) && ProperNotes(b) ==> ProperNotes(a + b)
  {
    if a == [] {
      assert a + b == b;
    } else {
      assert (a + b)[1..] == a[1..] + b;
      AddedConcat(a[1..], b);
    }
  }

  lemma KeepsLine(line: string, n: Option<string>, lines: seq<string>, rest: seq<string>)
    requires Subsequence(lines, rest)
    ensures Subsequence([line] + lines, [line] + Note(n) + rest)
    ensures |[line] + Note(n) + rest| == 1 + (if n.Some? then 1 else 0) + |rest|
  {
    assert ([line] + lines)[1..] == lines;
    assert ([line] + Note(n) + rest)[1..] == Note(n) + rest;
    match n
    case None => assert Note(n) + rest == rest;
    case Some(m) => assert (Note(n) + rest)[1..] == rest;
  }

  /** Nothing is lost or moved: the lines are still there, in order, and the notes are what was added. */
  lemma {:induction false} WeaveKeepsLines(lines: seq<string>, notes: Notes)
    requires |lines| == |notes|
    ensures Subsequence(lines, Weave(lines, notes))
    ensures |Weave(lines, notes)| == |lines| + Added(notes)
  {
    if lines != [] {
      WeaveKeepsLines(lines[1..], notes[1..]);
      KeepsLine(lines[0], notes[0], lines[1..], Weave(lines[1..], notes[1..]));
      assert lines == [lines[0]] + lines[1..];
    }
  }

  // ---- the file after the change -------------------------------------------

  /** A line without its newline would run into its note. */
  predicate RunsTogether(lines: seq<string>, notes: Notes)
    requires |lines| == |notes|
  {
    lines != [] && IsOpenLine(lines[|lines| - 1]) && notes[|notes| - 1].Some?
  }

  lemma SplittableCons(line: string, n: Option<string>, rest: seq<string>)
    requires IsLine(line) && (n.Some? ==> IsLine(n.value)) && Splittable(rest)
    ensures Splittable([line] + Note(n) + rest)
  {
    match n
    case None =>
      assert [line] + Note(n) + rest == [line] + rest;
      assert ([line] + rest)[1..] == rest;
    case Some(m) =>
      assert [line] + Note(n) + rest == [line] + ([m] + rest);
      assert ([line] + ([m] + rest))[1..] == [m] + rest && ([m] + rest)[1..] == rest;
  }

  lemma {:induction false} WovenIsSplittable(lines: seq<string>, notes: Notes)
    requires |lines| == |notes| && Splittable(lines) && ProperNotes(notes) && !RunsTogether(lines, notes)
    ensures Splittable(Weave(lines, notes))
  {
    if lines != [] {
      if IsLine(lines[0]) && Splittable(lines[1..]) {
        WovenIsSplittable(lines[1..], notes[1..]);
        SplittableCons(lines[0], notes[0], Weave(lines[1..], notes[1..]));
      } else {
        assert Weave(lines, notes) == lines;
      }
    }
  }

  /** The woven lines with the last line and its note run into one. */
  function Merged(lines: seq<string>, notes: Notes): (r: seq<string>)
    requires |lines| == |notes| && lines != [] && notes[|notes| - 1].Some?
    ensures r != [] && (|lines| > 1 ==> r[0] == lines[0])
  {
    if |lines| == 1 then [lines[0] + notes[0].value]
    else [lines[0]] + Note(notes[0]) + Merged(lines[1..], notes[1..])
  }

  lemma MergedCons(line: string, n: Option<string>, lines: seq<string>, notes: Notes)
    requires |lines| == |notes| && lines != [] && notes[|notes| - 1].Some?
    ensures Merged([line] + lines, [n] + notes) == [line] + Note(n) + Merged(lines, notes)
  {
    assert ([line] + lines)[1..] == lines && ([n] + notes)[1..] == notes;
  }

  lemma {:induction false} MergedConcat(a: seq<string>, na: Notes, b: seq<string>, nb: Notes)
    requires |a| == |na| && |b| == |nb| && b != [] && nb[|nb| - 1].Some?
    ensures Merged(a + b, na + nb) == Weave(a, na) + Merged(b, nb)
  {
    if a == [] {
      assert a + b == b && na + nb == nb;
    } else {
      MergedConcat(a[1..], na[1..], b, nb);
      MergedCons(a[0], na[0], a[1..] + b, na[1..] + nb);
      Rehead(a, b, []);
      Rehead(na, nb, []);
      Rehead([a[0]] + Note(na[0]), Weave(a[1..], na[1..]), Merged(b, nb));
    }
  }

  lemma MergedIsWoven(lines: seq<string>, notes: Notes, n: nat)
    requires |lines| == |notes| == n + 1 && notes[n].Some?
    ensures Merged(lines, notes) == Weave(lines[..n], notes[..n]) + [lines[n] + notes[n].value]
  {
    assert lines == lines[..n] + [lines[n]] && notes == notes[..n] + [notes[n]];
    MergedConcat(lines[..n], notes[..n], [lines[n]], [notes[n]]);
  }

  lemma MergedLast(lines: seq<string>, notes: Notes)
    requires |lines| == |notes| && lines != [] && notes[|notes| - 1].Some?
    ensures var m := Merged(lines, notes);
            m[|m| - 1] == lines[|lines| - 1] + notes[|notes| - 1].value
  {
    MergedIsWoven(lines, notes, |lines| - 1);
  }

  lemma {:induction false} JoinConcat(a: seq<string>, b: seq<string>)
    ensures Join(a + b) == Join(a) + Join(b)
  {
    if a == [] {
      assert a + b == b;
    } else {
      assert (a + b)[1..] == a[1..] + b;
      JoinConcat(a[1..], b);
    }
  }

  lemma {:induction false} SplittableParts(lines: seq<string>)
    requires Splittable(lines) && lines != []
    ensures var n := |lines| - 1;
            Splittable(lines[..n]) && (lines[..n] != [] ==> IsLine(lines[n - 1])) &&
            (IsLine(lines[n]) || IsOpenLine(lines[n]))
  {
    if |lines| > 1 {
      SplittableParts(lines[1..]);
      assert lines[..|lines| - 1][1..] == lines[1..][..|lines| - 2];
    }
  }

  lemma {:induction false} SplittableSnoc(lines: seq<string>, line: string)
    requires Splittable(lines) && (lines != [] ==> IsLine(lines[|lines| - 1])) && IsLine(line)
    ensures Splittable(lines + [line])
  {
    if lines == [] {
      assert lines + [line] == [line] && [line][1..] == [];
    } else {
      assert (lines + [line])[1..] == lines[1..] + [line];
      SplittableSnoc(lines[1..], line);
    }
  }

  lemma {:induction false} WovenEndsInLine(lines: seq<string>, notes: Notes)
    requires |lines| == |notes| && lines != [] && IsLine(lines[|lines| - 1]) && ProperNotes(notes)
    ensures IsLine(Weave(lines, notes)[|Weave(lines, notes)| - 1])
  {
    var rest := Weave(lines[1..], notes[1..]);
    var first := [lines[0]] + Note(notes[0]);
    if |lines| == 1 {
      assert first + rest == first;
    } else {
      WovenEndsInLine(lines[1..], notes[1..]);
      assert (first + rest)[|first + rest| - 1] == rest[|rest| - 1];
    }
  }

  lemma {:induction false} ProperPrefix(notes: Notes, n: nat)
    requires n <= |notes| && ProperNotes(notes)
    ensures ProperNotes(notes[..n])
    ensures n < |notes| && notes[n].Some? ==> IsLine(notes[n].value)
  {
    if n > 0 {
      ProperPrefix(notes[1..], n - 1);
      assert notes[..n][1..] == notes[1..][..n - 1];
    }
  }

  lemma MergedIsLine(open: string, note: string)
    requires IsOpenLine(open) && IsLine(note)
    ensures IsLine(open + note)
  {
    var both := open + note;
    var n := |both| - 1;
    assert both[n] == note[|note| - 1];
    assert both[..n] == open + note[..|note| - 1];
  }

  lemma MergedText(woven: seq<string>, open: string, note: string)
    ensures Join(woven + [open, note]) == Join(woven + [open + note])
  {
    JoinConcat(woven, [open, note]);
    JoinConcat(woven, [open + note]);
    assert [open, note][1..] == [note] && [note][1..] == [] && [open + note][1..] == [];
    assert note + "" == note && (open + note) + "" == open + note;
  }

  lemma WeaveSnoc(lines: seq<string>, notes: Notes, n: nat)
    requires |lines| == |notes| == n + 1
    ensures Weave(lines, notes) == Weave(lines[..n], notes[..n]) + ([lines[n]] + Note(notes[n]))
  {
    assert lines == lines[..n] + [lines[n]] && notes == notes[..n] + [notes[n]];
    WeaveConcat(lines[..n], notes[..n], [lines[n]], [notes[n]]);
    assert [lines[n]] + Note(notes[n]) + [] == [lines[n]] + Note(notes[n]);
    assert Weave([lines[n]], [notes[n]]) == [lines[n]] + Note(notes[n]) + Weave([], []);
  }

  lemma BeforeTheLast(lines: seq<string>, notes: Notes, n: nat)
    requires |lines| == |notes| == n + 1 && Splittable(lines) && ProperNotes(notes)
    ensures var woven := Weave(lines[..n], notes[..n]);
            Splittable(woven) && (woven != [] ==> IsLine(woven[|woven| - 1]))
  {
    ProperPrefix(notes, n);
    SplittableParts(lines);
    assert n > 0 ==> lines[..n][n - 1] == lines[n - 1];
    WovenIsSplittable(lines[..n], notes[..n]);
    if n > 0 {
      WovenEndsInLine(lines[..n], notes[..n]);
    }
  }

  lemma OneLineAgain(woven: seq<string>, open: string, note: string)
    requires Splittable(woven) && (woven != [] ==> IsLine(woven[|woven| - 1]))
    requires IsOpenLine(open) && IsLine(note)
    ensures Split(Join(woven + [open, note])) == woven + [open + note]
  {
    MergedIsLine(open, note);
    MergedText(woven, open, note);
    SplittableSnoc(woven, open + note);
    JoinedIsSplit(woven + [open + note]);
  }

  /** When the open last line gets a note, the next reader sees the two as one line. */
  lemma RunTogetherIsOneLine(lines: seq<string>, notes: Notes, n: nat)
    requires |lines| == |notes| == n + 1 && Splittable(lines) && ProperNotes(notes) && RunsTogether(lines, notes)
    ensures Split(Join(Weave(lines, notes))) == Merged(lines, notes)
  {
    ProperPrefix(notes, n);
    BeforeTheLast(lines, notes, n);
    WeaveSnoc(lines, notes, n);
    MergedIsWoven(lines, notes, n);
    OneLineAgain(Weave(lines[..n], notes[..n]), lines[n], notes[n].value);
    assert [lines[n]] + Note(notes[n]) == [lines[n], notes[n].value];
  }

  lemma {:induction false} NotesLengthenTheText(lines: seq<string>, notes: Notes)
    requires |lines| == |notes| && ProperNotes(notes)
    ensures |Join(Weave(lines, notes))| >= |Join(lines)| + Added(notes)
  {
    if lines != [] {
      var rest := Weave(lines[1..], notes[1..]);
      NotesLengthenTheText(lines[1..], notes[1..]);
      JoinConcat([lines[0]] + Note(notes[0]), rest);
      JoinConcat([lines[0]], Note(notes[0]));
      assert [lines[0]][1..] == [];
      assert notes[0].Some? ==> Note(notes[0])[1..] == [];
    }
  }

  /** A second run that adds a line to the run-together text makes it longer. */
  lemma SecondRunIsLonger(lines: seq<string>, notes: Notes, more: Notes)
    requires |lines| == |notes| && Splittable(lines) && ProperNotes(notes) && RunsTogether(lines, notes)
    requires |more| == |Merged(lines, notes)| && ProperNotes(more) && Added(more) > 0
    ensures Split(Join(Weave(lines, notes))) == Merged(lines, notes)
    ensures |Join(Weave(Merged(lines, notes), more))| > |Join(Weave(lines, notes))|
  {
    RunTogetherIsOneLine(lines, notes, |lines| - 1);
    SplitIsJoined(Join(Weave(lines, notes)));
    NotesLengthenTheText(Merged(lines, notes), more);
  }

  lemma {:induction false} JoinEnds(lines: seq<string>)
    requires lines != [] && lines[|lines| - 1] != ""
    ensures var last := lines[|lines| - 1];
            Join(lines) != "" && Join(lines)[|Join(lines)| - 1] == last[|last| - 1]
  {
    if |lines| == 1 {
      assert lines[0] + "" == lines[0];
    } else {
      JoinEnds(lines[1..]);
    }
  }

  /** A text that ends in a newline has no open line. */
  lemma TerminatedEndsInLine(text: string)
    requires text == "" || text[|text| - 1] == '\n'
    ensures Split(text) != [] ==> !IsOpenLine(Split(text)[|Split(text)| - 1])
  {
    var lines := Split(text);
    SplitIsJoined(text);
    if lines != [] && lines[|lines| - 1] != "" {
      JoinEnds(lines);
      LastIn(lines[|lines| - 1]);
    }
  }

  lemma LastIn(s: string)
    requires s != ""
    ensures s[|s| - 1] in s
  {
  }
}
