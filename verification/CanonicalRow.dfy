// src/audit_pipeline/merkle.py, canonical_encode: `field=value` lines in sorted
// field order, and exactly which rows it encodes unambiguously.
module CanonicalRow {
  import opened Bytes
  import opened Text
  import opened Sorting

  /** A row as `record.get` sees it; a column holds None or the text str(v). */
  type Row = map<string, Option<string>>

  /** The text a field is rendered as: a missing field and None are empty. */
  function Rendered(row: Row, field: string): string {
    if field in row && row[field].Some? then row[field].value else ""
  }

  function Values(row: Row, fields: seq<string>): (vs: seq<string>)
    ensures |vs| == |fields|
    ensures forall i :: 0 <= i < |fields| ==> vs[i] == Rendered(row, fields[i])
  {
    seq(|fields|, i requires 0 <= i < |fields| => Rendered(row, fields[i]))
  }

  // ---- canonical_encode ----------------------------------------------------

  function Head(field: string): string {
    field + "="
  }

  /** Lines `field=value`, each ended by a newline. */
  function Lines(fields: seq<string>, values: seq<string>): (text: string)
    requires |fields| == |values|
  {
    if fields == [] then ""
    else Head(fields[0]) + (values[0] + ("\n" + Lines(fields[1..], values[1..])))
  }

  function CanonicalText(row: Row, fields: seq<string>): string {
    var order := Sort(StringLe, fields);
    if order == [] then "\n" else Lines(order, Values(row, order))
  }

  function Canonical(row: Row, fields: seq<string>): Octets {
    Utf8(CanonicalText(row, fields))
  }

  /** Field by field: the least name, `=`, its text, a newline, and then the rest; a lone newline for no field. */
  lemma TextFieldByField(row: Row, field: string, rest: seq<string>)
    ensures CanonicalText(row, []) == "\n"
    ensures CanonicalText(row, [field]) ==
            field + ("=" + ((if field in row && row[field].Some? then row[field].value else "") + "\n"))
    ensures rest != [] && Sorted(StringLe, [field] + rest) ==>
              CanonicalText(row, [field] + rest) == CanonicalText(row, [field]) + CanonicalText(row, rest)
  {
    var value := Rendered(row, field);
    assert Sort(StringLe, [field]) == [field] && Values(row, [field])[1..] == [] && [field][1..] == [];
    LinesAre(field, value, [], []);
    assert Values(row, [field]) == [value] && "\n" + "" == "\n";
    if rest != [] && Sorted(StringLe, [field] + rest) {
      SortFixpoint(StringLe, [field] + rest);
      assert Sorted(StringLe, rest) by {
        assert forall i :: 0 <= i < |rest| ==> ([field] + rest)[i + 1] == rest[i];
      }
      SortFixpoint(StringLe, rest);
      LinesAre(field, value, rest, Values(row, rest));
      assert Values(row, [field] + rest) == [value] + Values(row, rest);
    }
  }

  lemma LinesAre(field: string, value: string, fields: seq<string>, values: seq<string>)
    requires |fields| == |values|
    ensures Lines([field] + fields, [value] + values) == (field + ("=" + (value + "\n"))) + Lines(fields, values)
  {
    assert ([field] + fields)[1..] == fields && ([value] + values)[1..] == values;
  }

  /** "\n".join(parts) */
  function JoinLines(parts: seq<string>): string {
    if parts == [] then "" else if |parts| == 1 then parts[0] else parts[0] + ("\n" + JoinLines(parts[1..]))
  }

  function Parts(fields: seq<string>, values: seq<string>): (ps: seq<string>)
    requires |fields| == |values|
    ensures |ps| == |fields|
    ensures forall i :: 0 <= i < |fields| ==> ps[i] == Head(fields[i]) + values[i]
  {
    seq(|fields|, i requires 0 <= i < |fields| => Head(fields[i]) + values[i])
  }

  lemma Cancel(a: string, b: string, c: string)
    requires a + b == a + c
    ensures b == c
  {
    assert b == (a + b)[|a|..] && c == (a + c)[|a|..];
  }

  lemma {:induction false} JoinIsLines(fields: seq<string>, values: seq<string>)
    requires |fields| == |values| > 0
    ensures JoinLines(Parts(fields, values)) + "\n" == Lines(fields, values)
  {
    var ps := Parts(fields, values);
    if |fields| == 1 {
      assert Lines(fields[1..], values[1..]) == "" && "\n" + "" == "\n";
      Regroup(Head(fields[0]), values[0], "\n");
    } else {
      assert ps[1..] == Parts(fields[1..], values[1..]);
      JoinIsLines(fields[1..], values[1..]);
      var rest := JoinLines(ps[1..]);
      Regroup(ps[0], "\n" + rest, "\n");
      Regroup("\n", rest, "\n");
      Regroup(Head(fields[0]), values[0], "\n" + (rest + "\n"));
    }
  }

  method CanonicalEncode(record: Row, fields: seq<string>) returns (bytes: Octets)
    ensures bytes == Canonical(record, fields)
  {
    var order := Sort(StringLe, fields);
    ghost var values := Values(record, order);
    var parts: seq<string> := [];
    for i := 0 to |order|
      invariant parts == Parts(order, values)[..i]
    {
      parts := parts + [order[i] + "=" + Rendered(record, order[i])];
    }
    assert parts == Parts(order, values);
    if order != [] {
      JoinIsLines(order, values);
    } else {
      assert JoinLines(parts) + "\n" == "\n";
    }
    bytes := Utf8(JoinLines(parts) + "\n");
  }

  // ---- when the encoding is unambiguous ------------------------------------

  predicate NoNewline(s: string) {
    '\n' !in s
  }

  predicate OccursAt(s: string, sub: string, i: int) {
    0 <= i <= |s| - |sub| && s[i..i + |sub|] == sub
  }

  predicate Contains(s: string, sub: string) {
    exists i :: 0 <= i <= |s| && OccursAt(s, sub, i)
  }

  /** What ends one field's value and begins the next one's. */
  function Separator(field: string): string {
    "\n" + Head(field)
  }

  /** No value contains the separator of the field that follows it. */
  predicate NextFree(fields: seq<string>, values: seq<string>)
    requires |fields| == |values|
  {
    forall i :: 0 <= i < |fields| - 1 ==> !Contains(values[i], Separator(fields[i + 1]))
  }

  /** No value contains the separator of its own field. */
  predicate OwnFree(fields: seq<string>, values: seq<string>)
    requires |fields| == |values|
  {
    forall i :: 0 <= i < |fields| ==> !Contains(values[i], Separator(fields[i]))
  }

  /** Neither; the first field has no separator in front of it. */
  predicate Unambiguous(fields: seq<string>, values: seq<string>)
    requires |fields| == |values|
  {
    NextFree(fields, values) && (fields != [] ==> OwnFree(fields[1..], values[1..]))
  }

  predicate PlainFields(fields: seq<string>) {
    forall i :: 0 <= i < |fields| ==> NoNewline(fields[i])
  }

  lemma NoNewlineNoSeparator(v: string, field: string)
    requires NoNewline(v)
    ensures !Contains(v, Separator(field))
  {
    var sub := Separator(field);
    forall k | 0 <= k <= |v|
      ensures !OccursAt(v, sub, k)
    {
      if k <= |v| - |sub| {
        assert v[k..k + |sub|][0] == v[k];
      }
    }
  }

  /** Values without newlines are never ambiguous. */
  lemma NewlineFreeUnambiguous(fields: seq<string>, values: seq<string>)
    requires |fields| == |values|
    requires forall i :: 0 <= i < |values| ==> NoNewline(values[i])
    ensures Unambiguous(fields, values)
  {
    forall i | 0 <= i < |fields| - 1
      ensures !Contains(values[i], Separator(fields[i + 1]))
    {
      NoNewlineNoSeparator(values[i], fields[i + 1]);
    }
    forall i | 0 <= i < |fields| - 1
      ensures !Contains(values[1..][i], Separator(fields[1..][i]))
    {
      NoNewlineNoSeparator(values[i + 1], fields[i + 1]);
    }
  }

  /** A value that runs on into another reading of the text holds the separator. */
  lemma LongerValueHoldsSeparator(v: string, w: string, field: string, rest: string, rest': string)
    requires NoNewline(field) && |v| < |w|
    requires v + (Separator(field) + rest) == w + ("\n" + rest')
    ensures Contains(w, Separator(field))
  {
    var sep := Separator(field);
    var all := w + ("\n" + rest');
    assert all[|w|] == '\n' && all[..|w|] == w;
    assert forall i :: 1 <= i < |sep| ==> sep[i] != '\n';
    assert forall n :: |v| < n < |v| + |sep| ==> all[n] == sep[n - |v|];
    assert w[|v|..|v| + |sep|] == all[|v|..|v| + |sep|];
    assert all[|v|..|v| + |sep|] == sep;
    assert OccursAt(w, sep, |v|);
  }

  /** Another reading of the values behind `v` does not have a shorter first value. */
  lemma FirstValueNotLonger(fields: seq<string>, v: seq<string>, w: seq<string>)
    requires |fields| == |v| == |w| > 0 && PlainFields(fields)
    requires NextFree(fields, w)
    requires Lines(fields, v) == Lines(fields, w)
    ensures |w[0]| <= |v[0]|
  {
    var t, t' := Lines(fields[1..], v[1..]), Lines(fields[1..], w[1..]);
    Cancel(Head(fields[0]), v[0] + ("\n" + t), w[0] + ("\n" + t'));
    assert |fields| > 1 ==> !Contains(w[0], Separator(fields[0 + 1]));
    if |v[0]| < |w[0]| {
      assert |v[0] + ("\n" + t)| == |w[0] + ("\n" + t')|;
      assert |fields| > 1;
      var rest := v[1..][0] + ("\n" + Lines(fields[1..][1..], v[1..][1..]));
      assert t == Head(fields[1]) + rest;
      Regroup("\n", Head(fields[1]), rest);
      LongerValueHoldsSeparator(v[0], w[0], fields[1], rest, t');
    }
  }

  /** Behind a separator at the front, a second one starts at the earliest where the first ends. */
  lemma SecondOccurrence(field: string, a: string, u: string, b: string)
    requires NoNewline(field) && u != ""
    requires Separator(field) + a == u + (Separator(field) + b)
    ensures var sep := Separator(field);
            |sep| <= |u| && OccursAt(a, sep, |u| - |sep|) && a[|u|..] == b
  {
    var sep := Separator(field);
    var all := sep + a;
    assert forall i :: 1 <= i < |sep| ==> all[i] == sep[i] != '\n';
    assert all == u + (sep + b) && all[|u|] == sep[0] == '\n';
    assert all[|u|..|u| + |sep|] == sep && all[|u| + |sep|..] == b;
    assert a == all[|sep|..];
    assert a[|u| - |sep|..|u|] == all[|u|..|u| + |sep|];
    assert a[|u|..] == all[|u| + |sep|..];
  }

  lemma InFront(v: string, r: string, sep: string, k: nat)
    requires OccursAt(v + r, sep, k) && k + |sep| <= |v|
    ensures Contains(v, sep)
  {
    assert v[k..k + |sep|] == (v + r)[k..k + |sep|];
    assert OccursAt(v, sep, k);
  }

  lemma Overhang(v: string, r: string, u: string, w: string, r': string)
    requires |v| < |u| <= |v + r| && (v + r)[|u|..] == w + r'
    ensures r == (v + r)[|v|..|u|] + w + r'
  {
    var all := v + r;
    assert r == all[|v|..] && all[|v|..] == all[|v|..|u|] + all[|u|..];
    assert all[|v|..|u|] + (w + r') == (all[|v|..|u|] + w) + r';
  }

  lemma RestAsSeparator(fields: seq<string>, v: seq<string>)
    requires |fields| == |v| > 0
    ensures "\n" + Lines(fields, v) == Separator(fields[0]) + (v[0] + ("\n" + Lines(fields[1..], v[1..])))
  {
    Regroup("\n", Head(fields[0]), v[0] + ("\n" + Lines(fields[1..], v[1..])));
  }

  lemma OwnFreeTail(fields: seq<string>, v: seq<string>)
    requires |fields| == |v| > 0 && OwnFree(fields, v)
    ensures OwnFree(fields[1..], v[1..]) && !Contains(v[0], Separator(fields[0]))
  {
    forall i | 0 <= i < |fields[1..]|
      ensures !Contains(v[1..][i], Separator(fields[1..][i]))
    {
      assert !Contains(v[i + 1], Separator(fields[i + 1]));
    }
  }

  /** If another reading has its first separator later, some value holds the separator of its own field. */
  lemma {:induction false} LaterReadingHoldsSeparator(fields: seq<string>, v: seq<string>, w: seq<string>, u: string)
    requires |fields| == |v| == |w| > 0 && PlainFields(fields) && u != ""
    requires "\n" + Lines(fields, v) == u + ("\n" + Lines(fields, w))
    ensures !OwnFree(fields, v)
    decreases |fields|
  {
    var sep := Separator(fields[0]);
    var r, r' := "\n" + Lines(fields[1..], v[1..]), "\n" + Lines(fields[1..], w[1..]);
    RestAsSeparator(fields, v);
    RestAsSeparator(fields, w);
    SecondOccurrence(fields[0], v[0] + r, u, w[0] + r');
    if |u| <= |v[0]| {
      InFront(v[0], r, sep, |u| - |sep|);
    } else {
      Overhang(v[0], r, u, w[0], r');
      var u' := (v[0] + r)[|v[0]|..|u|] + w[0];
      assert |r| == |u'| + |r'| && |u'| > 0;
      assert |fields| > 1;
      LaterReadingHoldsSeparator(fields[1..], v[1..], w[1..], u');
      if OwnFree(fields, v) {
        OwnFreeTail(fields, v);
      }
    }
  }

  /** Nor does it have a longer one. */
  lemma FirstValueNotShorter(fields: seq<string>, v: seq<string>, w: seq<string>)
    requires |fields| == |v| == |w| > 0 && PlainFields(fields)
    requires OwnFree(fields[1..], v[1..])
    requires Lines(fields, v) == Lines(fields, w)
    ensures |w[0]| <= |v[0]|
  {
    var t, t' := Lines(fields[1..], v[1..]), Lines(fields[1..], w[1..]);
    Cancel(Head(fields[0]), v[0] + ("\n" + t), w[0] + ("\n" + t'));
    if |v[0]| < |w[0]| {
      var u := w[0][|v[0]|..];
      var all := v[0] + ("\n" + t);
      assert |all| == |w[0] + ("\n" + t')|;
      assert |fields| > 1;
      assert all[..|v[0]|] == v[0] == w[0][..|v[0]|] && w[0] == v[0] + u;
      Regroup(v[0], u, "\n" + t');
      Cancel(v[0], "\n" + t, u + ("\n" + t'));
      LaterReadingHoldsSeparator(fields[1..], v[1..], w[1..], u);
    }
  }

  lemma UnambiguousTail(fields: seq<string>, v: seq<string>)
    requires |fields| == |v| > 0 && Unambiguous(fields, v)
    ensures Unambiguous(fields[1..], v[1..])
  {
    forall i | 0 <= i < |fields[1..]| - 1
      ensures !Contains(v[1..][i], Separator(fields[1..][i + 1]))
    {
      assert !Contains(v[i + 1], Separator(fields[i + 1 + 1]));
    }
    if |fields| > 1 {
      OwnFreeTail(fields[1..], v[1..]);
    }
  }

  /** Unambiguous values are recovered from their encoding: no other values at all share it. */
  lemma {:induction false} LinesInjective(fields: seq<string>, v: seq<string>, w: seq<string>)
    requires |fields| == |v| == |w| && PlainFields(fields)
    requires Unambiguous(fields, v)
    requires Lines(fields, v) == Lines(fields, w)
    ensures v == w
  {
    if fields != [] {
      FirstValueNotShorter(fields, v, w);
      FirstValueNotLonger(fields, w, v);
      var t, t' := Lines(fields[1..], v[1..]), Lines(fields[1..], w[1..]);
      Cancel(Head(fields[0]), v[0] + ("\n" + t), w[0] + ("\n" + t'));
      assert v[0] == (v[0] + ("\n" + t))[..|v[0]|] == (w[0] + ("\n" + t'))[..|v[0]|] == w[0];
      Cancel(v[0], "\n" + t, "\n" + t');
      Cancel("\n", t, t');
      UnambiguousTail(fields, v);
      LinesInjective(fields[1..], v[1..], w[1..]);
      assert v == [v[0]] + v[1..] && w == [w[0]] + w[1..];
    }
  }

  /** Text moved from the end of one value to the front of the next. */
  function Moved(values: seq<string>, i: nat, keep: string, next: string): (w: seq<string>)
    requires i + 1 < |values|
    ensures |w| == |values|
  {
    values[i := keep][i + 1 := next]
  }

  /** keep + sep + tail, then sep and a value: read with the first or the second separator. */
  lemma TwoReadings(field: string, keep: string, tail: string, value: string, rest: string)
    ensures (keep + (Separator(field) + tail)) + ("\n" + (Head(field) + (value + rest)))
         == keep + ("\n" + (Head(field) + ((tail + (Separator(field) + value)) + rest)))
  {
    var sep := Separator(field);
    calc {
      (keep + (sep + tail)) + ("\n" + (Head(field) + (value + rest)));
      { Regroup("\n", Head(field), value + rest); }
      (keep + (sep + tail)) + (sep + (value + rest));
      { Regroup(keep, sep + tail, sep + (value + rest)); Regroup(sep, tail, sep + (value + rest)); }
      keep + (sep + (tail + (sep + (value + rest))));
      { Regroup(sep, value, rest); Regroup(tail, sep + value, rest); }
      keep + (sep + ((tail + (sep + value)) + rest));
      { Regroup("\n", Head(field), (tail + (sep + value)) + rest); }
      keep + ("\n" + (Head(field) + ((tail + (sep + value)) + rest)));
    }
  }

  /** A value with the next field's separator in it can be read with that separator as the real one. */
  lemma {:induction false} AmbiguousTwin(fields: seq<string>, v: seq<string>, i: nat, keep: string, tail: string)
    requires |fields| == |v| && i + 1 < |v|
    requires v[i] == keep + (Separator(fields[i + 1]) + tail)
    ensures Lines(fields, Moved(v, i, keep, tail + (Separator(fields[i + 1]) + v[i + 1]))) == Lines(fields, v)
  {
    var w := Moved(v, i, keep, tail + (Separator(fields[i + 1]) + v[i + 1]));
    if i == 0 {
      var rest := "\n" + Lines(fields[1..][1..], v[1..][1..]);
      assert v[1..][1..] == w[1..][1..];
      assert Lines(fields[1..], v[1..]) == Head(fields[1]) + (v[1] + rest);
      assert Lines(fields[1..], w[1..]) == Head(fields[1]) + (w[1] + rest);
      TwoReadings(fields[1], keep, tail, v[1], rest);
    } else {
      assert w[1..] == Moved(v[1..], i - 1, keep, tail + (Separator(fields[i + 1]) + v[i + 1]));
      AmbiguousTwin(fields[1..], v[1..], i - 1, keep, tail);
    }
  }

  /** The row columns that belong to a value list. */
  ghost function RowOf(fields: seq<string>, values: seq<string>): (row: Row)
    requires |fields| == |values| && Distinct(fields)
    ensures Values(row, fields) == values
  {
    map f | f in fields :: Some(values[IndexOf(fields, f)])
  }

  function IndexOf(fields: seq<string>, f: string): (i: nat)
    requires f in fields
    ensures i < |fields| && fields[i] == f
  {
    if fields[0] == f then 0 else 1 + IndexOf(fields[1..], f)
  }

  predicate UnambiguousRow(row: Row, fields: seq<string>) {
    var order := Sort(StringLe, fields);
    Unambiguous(order, Values(row, order))
  }

  ghost predicate SameRendering(r: Row, s: Row, fields: seq<string>) {
    forall f :: f in fields ==> Rendered(r, f) == Rendered(s, f)
  }

  lemma SortedFields(fields: seq<string>)
    ensures forall f :: f in fields <==> f in Sort(StringLe, fields)
    ensures PlainFields(fields) ==> PlainFields(Sort(StringLe, fields))
  {
    var order := Sort(StringLe, fields);
    SortElements(StringLe, fields);
    forall f
      ensures f in fields <==> f in order
    {
      assert f in fields <==> f in multiset(fields);
      assert f in order <==> f in multiset(order);
    }
    forall i | 0 <= i < |order| && PlainFields(fields)
      ensures NoNewline(order[i])
    {
      assert order[i] in order;
    }
  }

  /** A row that is unambiguous shares its encoding with no row that renders differently. */
  lemma CanonicalInjective(r: Row, s: Row, fields: seq<string>)
    requires PlainFields(fields)
    requires UnambiguousRow(r, fields)
    requires Canonical(r, fields) == Canonical(s, fields)
    ensures SameRendering(r, s, fields)
  {
    var order := Sort(StringLe, fields);
    SortedFields(fields);
    Utf8Injective(CanonicalText(r, fields), CanonicalText(s, fields));
    LinesInjective(order, Values(r, order), Values(s, order));
    forall f | f in fields
      ensures Rendered(r, f) == Rendered(s, f)
    {
      var i :| 0 <= i < |order| && order[i] == f;
      assert Values(r, order)[i] == Values(s, order)[i];
    }
  }

  lemma TwinRendersDifferently(r: Row, fields: seq<string>, w: seq<string>)
    requires var order := Sort(StringLe, fields);
             Distinct(order) && |w| == |order| && w != Values(r, order) &&
             Lines(order, w) == Lines(order, Values(r, order))
    ensures exists s: Row :: !SameRendering(r, s, fields) && Canonical(s, fields) == Canonical(r, fields)
  {
    var order := Sort(StringLe, fields);
    var s := RowOf(order, w);
    var j :| 0 <= j < |w| && w[j] != Values(r, order)[j];
    SortedFields(fields);
    assert order[j] in order;
    assert Values(s, order)[j] == Rendered(s, order[j]) && Values(r, order)[j] == Rendered(r, order[j]);
    assert !SameRendering(r, s, fields);
    assert CanonicalText(s, fields) == CanonicalText(r, fields);
    assert Canonical(s, fields) == Canonical(r, fields);
  }

  lemma SplitAtSeparator(v: string, sub: string) returns (keep: string, tail: string)
    requires Contains(v, sub) && sub != ""
    ensures v == keep + (sub + tail) && |keep| < |v|
  {
    var k :| 0 <= k <= |v| && OccursAt(v, sub, k);
    keep, tail := v[..k], v[k + |sub|..];
    assert v == keep + (v[k..k + |sub|] + tail);
  }

  lemma NextFieldReading(fields: seq<string>, v: seq<string>, i: nat) returns (w: seq<string>)
    requires |fields| == |v| && i + 1 < |v|
    requires Contains(v[i], Separator(fields[i + 1]))
    ensures |w| == |v| && w != v && Lines(fields, w) == Lines(fields, v)
  {
    var keep, tail := SplitAtSeparator(v[i], Separator(fields[i + 1]));
    w := Moved(v, i, keep, tail + (Separator(fields[i + 1]) + v[i + 1]));
    assert w[i] == keep != v[i];
    AmbiguousTwin(fields, v, i, keep, tail);
  }

  /** A value with its own field's separator in it can give its front to the value before it. */
  lemma OwnFieldReading(fields: seq<string>, v: seq<string>, i: nat) returns (w: seq<string>)
    requires |fields| == |v| && i + 1 < |v|
    requires Contains(v[i + 1], Separator(fields[i + 1]))
    ensures |w| == |v| && w != v && Lines(fields, w) == Lines(fields, v)
  {
    var sep := Separator(fields[i + 1]);
    var keep, tail := SplitAtSeparator(v[i + 1], sep);
    w := Moved(v, i, v[i] + (sep + keep), tail);
    assert |w[i]| > |v[i]|;
    AmbiguousTwin(fields, w, i, v[i], keep);
    assert Moved(w, i, v[i], keep + (sep + w[i + 1])) == v;
  }

  lemma AnotherReading(fields: seq<string>, v: seq<string>) returns (w: seq<string>)
    requires |fields| == |v| && !Unambiguous(fields, v)
    ensures |w| == |v| && w != v && Lines(fields, w) == Lines(fields, v)
  {
    if !NextFree(fields, v) {
      var i :| 0 <= i < |fields| - 1 && Contains(v[i], Separator(fields[i + 1]));
      w := NextFieldReading(fields, v, i);
    } else {
      var i :| 0 <= i < |fields[1..]| && Contains(v[1..][i], Separator(fields[1..][i]));
      w := OwnFieldReading(fields, v, i);
    }
  }

  /** On every ambiguous row it is not: some row that renders differently encodes the same. */
  lemma AmbiguousRowHasTwin(r: Row, fields: seq<string>)
    requires Distinct(fields) && !UnambiguousRow(r, fields)
    ensures exists s: Row :: !SameRendering(r, s, fields) && Canonical(s, fields) == Canonical(r, fields)
  {
    var order := Sort(StringLe, fields);
    SortDistinct(StringLe, fields);
    var v := Values(r, order);
    var w := AnotherReading(order, v);
    TwinRendersDifferently(r, fields, w);
  }

  /** Exactly the unambiguous rows are determined by their encoding. */
  lemma DeterminedIff(r: Row, fields: seq<string>)
    requires PlainFields(fields) && Distinct(fields)
    ensures UnambiguousRow(r, fields) <==>
            forall s: Row :: Canonical(s, fields) == Canonical(r, fields) ==> SameRendering(r, s, fields)
  {
    if UnambiguousRow(r, fields) {
      forall s: Row | Canonical(s, fields) == Canonical(r, fields)
        ensures SameRendering(r, s, fields)
      {
        CanonicalInjective(r, s, fields);
      }
    } else {
      AmbiguousRowHasTwin(r, fields);
    }
  }
}
