// src/audit_pipeline/merkle.py: the leaves and the root of a whole cycle, and
// what an equal root says about two cycles.
module CycleRoot {
  import opened Bytes
  import opened Text
  import opened Sorting
  import opened CanonicalRow
  import opened Merkle

  /** A finding row, and the canonical JSON of `details_json or details`. */
  datatype Finding = Finding(columns: Row, details: Option<string>)

  /** Which columns are attested: CYCLE_FIELDS and FINDING_FIELDS. */
  datatype Schema = Schema(cycle: seq<string>, finding: seq<string>)

  function CycleFields(): seq<string> {
    ["cycle_id", "cycle_html_sha256", "cycle_pdf_sha256", "engine_sha", "finished_at",
     "n_confirmed", "n_dispatched", "started_at", "target_id", "wrapper_sha"]
  }

  function FindingFields(): seq<string> {
    ["bug_class", "bundle_digest", "confidence", "cycle_id", "details_digest", "engine_sha",
     "hypothesis_id", "id", "poc_fired", "severity", "status", "title", "verdict", "wrapper_sha"]
  }

  function V4(): Schema {
    Schema(CycleFields(), FindingFields())
  }

  // ---- the leaves of a cycle -----------------------------------------------

  /** _details_digest */
  function DetailsDigest(h: Hash, details: Option<string>): string {
    match details
    case None => ""
    case Some(canon) => Hex(h(Utf8(canon)))
  }

  function WithDigest(h: Hash, f: Finding): Row {
    if "details_digest" in f.columns then f.columns
    else f.columns["details_digest" := Some(DetailsDigest(h, f.details))]
  }

  function FindingRecord(h: Hash, schema: Schema, f: Finding): Octets {
    Canonical(WithDigest(h, f), schema.finding)
  }

  function FindingRecords(h: Hash, schema: Schema, findings: seq<Finding>): (rs: seq<Octets>)
    ensures |rs| == |findings|
    ensures forall i :: 0 <= i < |findings| ==> rs[i] == FindingRecord(h, schema, findings[i])
  {
    seq(|findings|, i requires 0 <= i < |findings| => FindingRecord(h, schema, findings[i]))
  }

  /** The metadata record, and then one record per finding. */
  function Records(h: Hash, schema: Schema, cycle: Row, findings: seq<Finding>): (rs: seq<Octets>)
    ensures |rs| == |findings| + 1
  {
    [Canonical(cycle, schema.cycle)] + FindingRecords(h, schema, findings)
  }

  lemma RecordIn(h: Hash, schema: Schema, cycle: Row, findings: seq<Finding>, r: Octets)
    ensures r in Records(h, schema, cycle, findings) <==>
            r == Canonical(cycle, schema.cycle) || r in FindingRecords(h, schema, findings)
  {
    InCons(Canonical(cycle, schema.cycle), FindingRecords(h, schema, findings), r);
  }

  lemma InCons<T>(head: T, tail: seq<T>, x: T)
    ensures x in [head] + tail <==> x == head || x in tail
  {
  }

  lemma LeavesAppend(h: Hash, r: Octets, rs: seq<Octets>)
    ensures Leaves(h, [r] + rs) == [LeafHash(h, r)] + Leaves(h, rs)
  {
  }

  /** cycle_merkle_root, for the columns of a schema. */
  function CycleMerkleRoot(h: Hash, schema: Schema, cycle: Row, findings: seq<Finding>): string {
    Hex(Root(h, Leaves(h, Records(h, schema, cycle, findings))))
  }

  /** cycle_leaves */
  method CycleLeaves(h: Hash, schema: Schema, cycle: Row, findings: seq<Finding>) returns (leaves: seq<Digest>)
    ensures leaves == Leaves(h, Records(h, schema, cycle, findings))
  {
    ghost var records := FindingRecords(h, schema, findings);
    var bytes := CanonicalEncode(cycle, schema.cycle);
    leaves := [LeafHash(h, bytes)];
    ghost var head := leaves;
    for i := 0 to |findings|
      invariant leaves == head + Leaves(h, records[..i])
    {
      var withDigest := findings[i].columns;
      if "details_digest" !in withDigest {
        withDigest := withDigest["details_digest" := Some(DetailsDigest(h, findings[i].details))];
      }
      bytes := CanonicalEncode(withDigest, schema.finding);
      leaves := leaves + [LeafHash(h, bytes)];
      LeavesExtend(h, records, i);
    }
    assert records[..|findings|] == records;
    LeavesAppend(h, Canonical(cycle, schema.cycle), records);
  }

  lemma LeavesExtend(h: Hash, records: seq<Octets>, i: nat)
    requires i < |records|
    ensures Leaves(h, records[..i + 1]) == Leaves(h, records[..i]) + [LeafHash(h, records[i])]
  {
  }

  /** cycle_merkle_root, with the number of internal hashes of the tree. */
  method ComputeCycleRoot(h: Hash, cycle: Row, findings: seq<Finding>) returns (rootHex: string, hashes: nat)
    ensures rootHex == PublishedRoot(h, cycle, findings)
    ensures |findings| <= hashes <= |findings| + Depth(|findings| + 1)
  {
    var leaves := CycleLeaves(h, V4(), cycle, findings);
    var root;
    root, hashes := MerkleRoot(h, leaves);
    HashCount(h, Sort(DigestLe, leaves));
    rootHex := Hex(root);
  }

  // ---- what an equal root means --------------------------------------------

  /** What the tree says of a row: every attested column as text. */
  function RenderedRow(row: Row, fields: seq<string>): map<string, string> {
    map f | f in fields :: Rendered(row, f)
  }

  lemma RenderedIff(r: Row, s: Row, fields: seq<string>)
    ensures RenderedRow(r, fields) == RenderedRow(s, fields) <==> SameRendering(r, s, fields)
  {
    var m, n := RenderedRow(r, fields), RenderedRow(s, fields);
    if m == n {
      forall f | f in fields
        ensures Rendered(r, f) == Rendered(s, f)
      {
        assert m[f] == n[f];
      }
    }
  }

  function RenderedFindings(h: Hash, schema: Schema, findings: seq<Finding>): (rs: seq<map<string, string>>)
    ensures |rs| == |findings|
    ensures forall i :: 0 <= i < |rs| ==> rs[i] == RenderedRow(WithDigest(h, findings[i]), schema.finding)
  {
    seq(|findings|, i requires 0 <= i < |findings| => RenderedRow(WithDigest(h, findings[i]), schema.finding))
  }

  predicate UnambiguousCycle(h: Hash, schema: Schema, cycle: Row, findings: seq<Finding>) {
    UnambiguousRow(cycle, schema.cycle) &&
    forall i :: 0 <= i < |findings| ==> UnambiguousRow(WithDigest(h, findings[i]), schema.finding)
  }

  /** Values without newlines make an unambiguous cycle. */
  lemma NewlineFreeCycle(h: Hash, schema: Schema, cycle: Row, findings: seq<Finding>)
    requires forall f :: f in schema.cycle ==> NoNewline(Rendered(cycle, f))
    requires forall i, f :: 0 <= i < |findings| && f in schema.finding ==>
                              NoNewline(Rendered(WithDigest(h, findings[i]), f))
    ensures UnambiguousCycle(h, schema, cycle, findings)
  {
    NewlineFreeRow(cycle, schema.cycle);
    forall i | 0 <= i < |findings|
      ensures UnambiguousRow(WithDigest(h, findings[i]), schema.finding)
    {
      NewlineFreeRow(WithDigest(h, findings[i]), schema.finding);
    }
  }

  lemma NewlineFreeRow(row: Row, fields: seq<string>)
    requires forall f :: f in fields ==> NoNewline(Rendered(row, f))
    ensures UnambiguousRow(row, fields)
  {
    var order := Sort(StringLe, fields);
    SortedFields(fields);
    assert forall i :: 0 <= i < |order| ==> order[i] in fields;
    NewlineFreeUnambiguous(order, Values(row, order));
  }

  predicate DistinctIds(findings: seq<Finding>) {
    forall i, j :: 0 <= i < j < |findings| ==>
      Rendered(findings[i].columns, "id") != Rendered(findings[j].columns, "id")
  }

  /** Field names are plain, ids are attested, and no row of one kind encodes like one of the other. */
  ghost predicate Sound(schema: Schema) {
    PlainFields(schema.cycle) && PlainFields(schema.finding) && "id" in schema.finding &&
    forall c: Row, f: Row :: Canonical(c, schema.cycle) != Canonical(f, schema.finding)
  }

  lemma CycleRowCarriesOver(h: Hash, schema: Schema, c: Row, d: Row, gs: seq<Finding>)
    requires Sound(schema)
    requires UnambiguousRow(c, schema.cycle)
    requires Canonical(c, schema.cycle) in Records(h, schema, d, gs)
    ensures RenderedRow(c, schema.cycle) == RenderedRow(d, schema.cycle)
  {
    RecordIn(h, schema, d, gs, Canonical(c, schema.cycle));
    var rs := FindingRecords(h, schema, gs);
    assert forall k :: 0 <= k < |rs| ==> rs[k] == Canonical(WithDigest(h, gs[k]), schema.finding);
    CanonicalInjective(c, d, schema.cycle);
    RenderedIff(c, d, schema.cycle);
  }

  lemma FindingRecordFound(h: Hash, schema: Schema, f: Finding, d: Row, gs: seq<Finding>) returns (k: nat)
    requires Sound(schema)
    requires FindingRecord(h, schema, f) in Records(h, schema, d, gs)
    ensures k < |gs| && FindingRecord(h, schema, gs[k]) == FindingRecord(h, schema, f)
  {
    RecordIn(h, schema, d, gs, FindingRecord(h, schema, f));
    var rs := FindingRecords(h, schema, gs);
    k :| 0 <= k < |rs| && rs[k] == FindingRecord(h, schema, f);
  }

  /** Equal encodings render alike when one of the two rows is unambiguous. */
  lemma OneSideSuffices(r: Row, s: Row, fields: seq<string>)
    requires PlainFields(fields) && (UnambiguousRow(r, fields) || UnambiguousRow(s, fields))
    requires Canonical(r, fields) == Canonical(s, fields)
    ensures RenderedRow(r, fields) == RenderedRow(s, fields)
  {
    if UnambiguousRow(r, fields) {
      CanonicalInjective(r, s, fields);
      RenderedIff(r, s, fields);
    } else {
      CanonicalInjective(s, r, fields);
      RenderedIff(s, r, fields);
    }
  }

  lemma FindingCarriesOver(h: Hash, schema: Schema, f: Finding, d: Row, gs: seq<Finding>)
    requires Sound(schema)
    requires UnambiguousRow(WithDigest(h, f), schema.finding) || UnambiguousCycle(h, schema, d, gs)
    requires FindingRecord(h, schema, f) in Records(h, schema, d, gs)
    ensures RenderedRow(WithDigest(h, f), schema.finding) in RenderedFindings(h, schema, gs)
  {
    var k := FindingRecordFound(h, schema, f, d, gs);
    OneSideSuffices(WithDigest(h, f), WithDigest(h, gs[k]), schema.finding);
    assert RenderedFindings(h, schema, gs)[k] == RenderedRow(WithDigest(h, gs[k]), schema.finding);
  }

  lemma FindingsCarryOver(h: Hash, schema: Schema, c: Row, fs: seq<Finding>, d: Row, gs: seq<Finding>,
                          r: map<string, string>)
    requires Sound(schema)
    requires UnambiguousCycle(h, schema, c, fs) || UnambiguousCycle(h, schema, d, gs)
    requires forall x :: x in Records(h, schema, c, fs) ==> x in Records(h, schema, d, gs)
    requires r in RenderedFindings(h, schema, fs)
    ensures r in RenderedFindings(h, schema, gs)
  {
    var i :| 0 <= i < |fs| && RenderedFindings(h, schema, fs)[i] == r;
    RecordIn(h, schema, c, fs, FindingRecords(h, schema, fs)[i]);
    FindingCarriesOver(h, schema, fs[i], d, gs);
  }

  lemma DistinctIdsDistinctRows(h: Hash, schema: Schema, fs: seq<Finding>)
    requires "id" in schema.finding && DistinctIds(fs)
    ensures forall i, j :: 0 <= i < j < |fs| ==>
      RenderedFindings(h, schema, fs)[i] != RenderedFindings(h, schema, fs)[j]
  {
    var rs := RenderedFindings(h, schema, fs);
    forall i, j | 0 <= i < j < |fs|
      ensures rs[i] != rs[j]
    {
      assert rs[i]["id"] == Rendered(fs[i].columns, "id");
      assert rs[j]["id"] == Rendered(fs[j].columns, "id");
    }
  }

  lemma SameFindingsSameCount(h: Hash, schema: Schema, fs: seq<Finding>, gs: seq<Finding>)
    requires "id" in schema.finding && DistinctIds(fs) && DistinctIds(gs)
    requires forall r :: r in RenderedFindings(h, schema, fs) <==> r in RenderedFindings(h, schema, gs)
    ensures multiset(RenderedFindings(h, schema, fs)) == multiset(RenderedFindings(h, schema, gs))
  {
    DistinctIdsDistinctRows(h, schema, fs);
    DistinctIdsDistinctRows(h, schema, gs);
    forall r
      ensures multiset(RenderedFindings(h, schema, fs))[r] == multiset(RenderedFindings(h, schema, gs))[r]
    {
      DistinctCount(RenderedFindings(h, schema, fs), r);
      DistinctCount(RenderedFindings(h, schema, gs), r);
    }
  }

  ghost predicate SameCycle(h: Hash, schema: Schema, c: Row, fs: seq<Finding>, d: Row, gs: seq<Finding>) {
    RenderedRow(c, schema.cycle) == RenderedRow(d, schema.cycle) &&
    (forall r :: r in RenderedFindings(h, schema, fs) <==> r in RenderedFindings(h, schema, gs)) &&
    (DistinctIds(fs) && DistinctIds(gs) ==>
       multiset(RenderedFindings(h, schema, fs)) == multiset(RenderedFindings(h, schema, gs)))
  }

  lemma SameRecordsSameCycle(h: Hash, schema: Schema, c: Row, fs: seq<Finding>, d: Row, gs: seq<Finding>)
    requires Sound(schema)
    requires UnambiguousCycle(h, schema, c, fs)
    requires forall x :: x in Records(h, schema, c, fs) <==> x in Records(h, schema, d, gs)
    ensures SameCycle(h, schema, c, fs, d, gs)
  {
    RecordIn(h, schema, c, fs, Canonical(c, schema.cycle));
    CycleRowCarriesOver(h, schema, c, d, gs);
    forall r
      ensures r in RenderedFindings(h, schema, fs) <==> r in RenderedFindings(h, schema, gs)
    {
      if r in RenderedFindings(h, schema, fs) {
        FindingsCarryOver(h, schema, c, fs, d, gs, r);
      }
      if r in RenderedFindings(h, schema, gs) {
        FindingsCarryOver(h, schema, d, gs, c, fs, r);
      }
    }
    if DistinctIds(fs) && DistinctIds(gs) {
      SameFindingsSameCount(h, schema, fs, gs);
    }
  }

  /** Tamper evidence for any sound schema; nothing is asked of the second cycle. */
  lemma EqualRootsSameCycle(h: Hash, schema: Schema, c: Row, fs: seq<Finding>, d: Row, gs: seq<Finding>)
    requires Sound(schema)
    requires UnambiguousCycle(h, schema, c, fs)
    requires CycleMerkleRoot(h, schema, c, fs) == CycleMerkleRoot(h, schema, d, gs)
    ensures SameCycle(h, schema, c, fs, d, gs) ||
            CollisionAmong(h, HashInputs(h, Records(h, schema, c, fs)), HashInputs(h, Records(h, schema, d, gs)))
  {
    var xs, ys := Records(h, schema, c, fs), Records(h, schema, d, gs);
    HexInjective(Root(h, Leaves(h, xs)), Root(h, Leaves(h, ys)));
    Binding(h, xs, ys);
    if forall x :: x in xs <==> x in ys {
      SameRecordsSameCycle(h, schema, c, fs, d, gs);
    }
  }

  /** A row that encodes ambiguously can be swapped for its twin under the same root. */
  lemma AmbiguousCycleHasTwin(h: Hash, schema: Schema, c: Row, fs: seq<Finding>)
    requires Distinct(schema.cycle) && !UnambiguousRow(c, schema.cycle)
    ensures exists d: Row :: RenderedRow(d, schema.cycle) != RenderedRow(c, schema.cycle) &&
                             CycleMerkleRoot(h, schema, d, fs) == CycleMerkleRoot(h, schema, c, fs)
  {
    AmbiguousRowHasTwin(c, schema.cycle);
    var d: Row :| !SameRendering(c, d, schema.cycle) && Canonical(d, schema.cycle) == Canonical(c, schema.cycle);
    RenderedIff(c, d, schema.cycle);
  }

  lemma SameValuesSameEncoding(r: Row, s: Row, fields: seq<string>)
    requires SameRendering(r, s, fields)
    ensures Canonical(r, fields) == Canonical(s, fields)
  {
    var order := Sort(StringLe, fields);
    SortedFields(fields);
    assert forall i :: 0 <= i < |order| ==> order[i] in fields;
    assert Values(r, order) == Values(s, order);
  }

  lemma FindingTwin(h: Hash, schema: Schema, f: Finding) returns (g: Finding)
    requires Distinct(schema.finding) && !UnambiguousRow(WithDigest(h, f), schema.finding)
    ensures FindingRecord(h, schema, g) == FindingRecord(h, schema, f)
    ensures RenderedRow(WithDigest(h, g), schema.finding) != RenderedRow(WithDigest(h, f), schema.finding)
  {
    var row := WithDigest(h, f);
    AmbiguousRowHasTwin(row, schema.finding);
    var s: Row :| !SameRendering(row, s, schema.finding) &&
                  Canonical(s, schema.finding) == Canonical(row, schema.finding);
    g := Finding(s, None);
    FindingFromRow(h, schema, s);
    RenderedIff(WithDigest(h, g), row, schema.finding);
  }

  /** The same for a finding row. */
  lemma AmbiguousFindingHasTwin(h: Hash, schema: Schema, c: Row, fs: seq<Finding>, i: nat)
    requires i < |fs| && Distinct(schema.finding)
    requires !UnambiguousRow(WithDigest(h, fs[i]), schema.finding)
    ensures exists g: Finding ::
      RenderedRow(WithDigest(h, g), schema.finding) != RenderedRow(WithDigest(h, fs[i]), schema.finding) &&
      CycleMerkleRoot(h, schema, c, fs[i := g]) == CycleMerkleRoot(h, schema, c, fs)
  {
    var g := FindingTwin(h, schema, fs[i]);
    SameRecordSameRoot(h, schema, c, fs, i, g);
  }

  lemma RecordAt(h: Hash, schema: Schema, c: Row, fs: seq<Finding>, i: nat)
    requires i < |fs|
    ensures Records(h, schema, c, fs)[0] == Canonical(c, schema.cycle)
    ensures Records(h, schema, c, fs)[i + 1] == FindingRecord(h, schema, fs[i])
  {
  }

  lemma RecordRendersAlike(h: Hash, schema: Schema, c: Row, fs: seq<Finding>, d: Row, gs: seq<Finding>, i: nat)
    requires PlainFields(schema.finding) && |fs| == |gs| && i < |fs|
    requires UnambiguousCycle(h, schema, c, fs) && Records(h, schema, d, gs) == Records(h, schema, c, fs)
    ensures RenderedRow(WithDigest(h, gs[i]), schema.finding) == RenderedRow(WithDigest(h, fs[i]), schema.finding)
  {
    RecordAt(h, schema, c, fs, i);
    RecordAt(h, schema, d, gs, i);
    OneSideSuffices(WithDigest(h, fs[i]), WithDigest(h, gs[i]), schema.finding);
  }

  lemma SameRecordsRenderAlike(h: Hash, schema: Schema, c: Row, fs: seq<Finding>, d: Row, gs: seq<Finding>)
    requires PlainFields(schema.cycle) && PlainFields(schema.finding)
    requires UnambiguousCycle(h, schema, c, fs) && Records(h, schema, d, gs) == Records(h, schema, c, fs)
    ensures RenderedRow(d, schema.cycle) == RenderedRow(c, schema.cycle)
    ensures RenderedFindings(h, schema, gs) == RenderedFindings(h, schema, fs)
  {
    assert |gs| + 1 == |Records(h, schema, d, gs)| == |fs| + 1;
    assert Records(h, schema, c, fs)[0] == Canonical(c, schema.cycle);
    assert Records(h, schema, d, gs)[0] == Canonical(d, schema.cycle);
    OneSideSuffices(c, d, schema.cycle);
    var rs, ss := RenderedFindings(h, schema, gs), RenderedFindings(h, schema, fs);
    forall i | 0 <= i < |fs|
      ensures rs[i] == ss[i]
    {
      RecordRendersAlike(h, schema, c, fs, d, gs, i);
    }
  }

  lemma ReplacedFinding(h: Hash, schema: Schema, c: Row, fs: seq<Finding>, i: nat, g: Finding)
    requires i < |fs| && FindingRecord(h, schema, g) == FindingRecord(h, schema, fs[i])
    requires RenderedRow(WithDigest(h, g), schema.finding) != RenderedRow(WithDigest(h, fs[i]), schema.finding)
    ensures Records(h, schema, c, fs[i := g]) == Records(h, schema, c, fs)
    ensures RenderedFindings(h, schema, fs[i := g]) != RenderedFindings(h, schema, fs)
  {
    assert FindingRecords(h, schema, fs[i := g]) == FindingRecords(h, schema, fs);
    assert RenderedFindings(h, schema, fs[i := g])[i] != RenderedFindings(h, schema, fs)[i];
  }

  lemma AmbiguousRecordsHaveTwin(h: Hash, schema: Schema, c: Row, fs: seq<Finding>) returns (d: Row, gs: seq<Finding>)
    requires Distinct(schema.cycle) && Distinct(schema.finding) && !UnambiguousCycle(h, schema, c, fs)
    ensures Records(h, schema, d, gs) == Records(h, schema, c, fs)
    ensures RenderedRow(d, schema.cycle) != RenderedRow(c, schema.cycle) ||
            RenderedFindings(h, schema, gs) != RenderedFindings(h, schema, fs)
  {
    d, gs := c, fs;
    if !UnambiguousRow(c, schema.cycle) {
      AmbiguousRowHasTwin(c, schema.cycle);
      d :| !SameRendering(c, d, schema.cycle) && Canonical(d, schema.cycle) == Canonical(c, schema.cycle);
      RenderedIff(c, d, schema.cycle);
    } else {
      var i :| 0 <= i < |fs| && !UnambiguousRow(WithDigest(h, fs[i]), schema.finding);
      var g := FindingTwin(h, schema, fs[i]);
      gs := fs[i := g];
      ReplacedFinding(h, schema, c, fs, i, g);
    }
  }

  /** Exactly the unambiguous cycles are determined by the records that are hashed. */
  lemma CycleDeterminedIff(h: Hash, schema: Schema, c: Row, fs: seq<Finding>)
    requires PlainFields(schema.cycle) && PlainFields(schema.finding)
    requires Distinct(schema.cycle) && Distinct(schema.finding)
    ensures UnambiguousCycle(h, schema, c, fs) <==>
            forall d: Row, gs: seq<Finding> :: Records(h, schema, d, gs) == Records(h, schema, c, fs) ==>
              RenderedRow(d, schema.cycle) == RenderedRow(c, schema.cycle) &&
              RenderedFindings(h, schema, gs) == RenderedFindings(h, schema, fs)
  {
    if UnambiguousCycle(h, schema, c, fs) {
      forall d: Row, gs: seq<Finding> | Records(h, schema, d, gs) == Records(h, schema, c, fs)
        ensures RenderedRow(d, schema.cycle) == RenderedRow(c, schema.cycle)
        ensures RenderedFindings(h, schema, gs) == RenderedFindings(h, schema, fs)
      {
        SameRecordsRenderAlike(h, schema, c, fs, d, gs);
      }
    } else {
      var d, gs := AmbiguousRecordsHaveTwin(h, schema, c, fs);
    }
  }

  /** A row without a digest column renders as if the column were empty. */
  lemma FindingFromRow(h: Hash, schema: Schema, s: Row)
    ensures SameRendering(WithDigest(h, Finding(s, None)), s, schema.finding)
    ensures FindingRecord(h, schema, Finding(s, None)) == Canonical(s, schema.finding)
  {
    var r := WithDigest(h, Finding(s, None));
    forall f
      ensures Rendered(r, f) == Rendered(s, f)
    {
    }
    SameValuesSameEncoding(r, s, schema.finding);
  }

  lemma SameRecordSameRoot(h: Hash, schema: Schema, c: Row, fs: seq<Finding>, i: nat, g: Finding)
    requires i < |fs| && FindingRecord(h, schema, g) == FindingRecord(h, schema, fs[i])
    ensures CycleMerkleRoot(h, schema, c, fs[i := g]) == CycleMerkleRoot(h, schema, c, fs)
  {
    assert FindingRecords(h, schema, fs[i := g]) == FindingRecords(h, schema, fs);
  }

  /** The digest column binds the narrative: different details collide. */
  lemma DetailsAreBound(h: Hash, f: Finding, g: Finding)
    requires "details_digest" !in f.columns && "details_digest" !in g.columns
    requires Rendered(WithDigest(h, f), "details_digest") == Rendered(WithDigest(h, g), "details_digest")
    ensures f.details == g.details ||
            (f.details.Some? && g.details.Some? && Collides(h, Utf8(f.details.value), Utf8(g.details.value)))
  {
    if f.details.Some? && g.details.Some? {
      HexInjective(h(Utf8(f.details.value)), h(Utf8(g.details.value)));
      if Utf8(f.details.value) == Utf8(g.details.value) {
        Utf8Injective(f.details.value, g.details.value);
      }
    }
  }

  /** Rows of the same cycle in another order have the same root. */
  lemma CycleRootIgnoresOrder(h: Hash, schema: Schema, c: Row, fs: seq<Finding>, gs: seq<Finding>)
    requires multiset(fs) == multiset(gs)
    ensures CycleMerkleRoot(h, schema, c, fs) == CycleMerkleRoot(h, schema, c, gs)
  {
    var xs, ys := Records(h, schema, c, fs), Records(h, schema, c, gs);
    var record := (f: Finding) => FindingRecord(h, schema, f);
    var leaf := (r: Octets) => LeafHash(h, r);
    MapPermutes(record, fs, gs);
    assert FindingRecords(h, schema, fs) == Map(record, fs);
    assert FindingRecords(h, schema, gs) == Map(record, gs);
    MapPermutes(leaf, xs, ys);
    assert Leaves(h, xs) == Map(leaf, xs);
    assert Leaves(h, ys) == Map(leaf, ys);
    RootIgnoresOrder(h, Leaves(h, xs), Leaves(h, ys));
  }

  // ---- the schema in use ---------------------------------------------------

  predicate StartsWith(s: string, c: char) {
    s != "" && s[0] == c
  }

  /** The first text of two field lists starts differently when their first fields do. */
  lemma EncodingsDiffer(cycle: seq<string>, finding: seq<string>, c: Row, f: Row)
    requires finding != [] && cycle != []
    requires StartsWith(Sort(StringLe, finding)[0], 'b')
    requires forall name :: name in cycle ==> name != "" && !StartsWith(name, 'b')
    ensures Canonical(c, cycle) != Canonical(f, finding)
  {
    var co, fo := Sort(StringLe, cycle), Sort(StringLe, finding);
    SortedFields(cycle);
    assert co[0] in cycle;
    assert CanonicalText(c, cycle)[0] == co[0][0];
    assert CanonicalText(f, finding)[0] == 'b';
    if Canonical(c, cycle) == Canonical(f, finding) {
      Utf8Injective(CanonicalText(c, cycle), CanonicalText(f, finding));
    }
  }

  lemma FirstLetterDecides(a: string, b: string)
    requires a != "" && b != "" && a[0] < b[0]
    ensures StringLe(a, b) && !StringLe(b, a)
  {
  }

  /** A list with one name that starts with 'b' and others that start later sorts a 'b' name first. */
  lemma SmallestFirst(fields: seq<string>)
    requires fields != [] && StartsWith(fields[0], 'b')
    requires forall name :: name in fields ==> name != "" && name[0] >= 'b'
    ensures StartsWith(Sort(StringLe, fields)[0], 'b')
  {
    var order := Sort(StringLe, fields);
    StringOrder();
    SortSorts(StringLe, fields);
    SortedFields(fields);
    assert order[0] in fields && fields[0] in order;
    var k :| 0 <= k < |order| && order[k] == fields[0];
    assert k == 0 || StringLe(order[0], order[k]);
    if order[0][0] > 'b' {
      FirstLetterDecides(fields[0], order[0]);
    }
  }

  lemma CycleFieldsPlain()
    ensures PlainFields(CycleFields())
  {
  }

  lemma CycleFieldsStart()
    ensures CycleFields() != []
    ensures forall name :: name in CycleFields() ==> name != "" && !StartsWith(name, 'b')
  {
  }

  lemma FindingFieldsPlain()
    ensures PlainFields(FindingFields())
  {
  }

  lemma FindingFieldsStart()
    ensures FindingFields() != [] && StartsWith(FindingFields()[0], 'b')
    ensures forall name :: name in FindingFields() ==> name != "" && name[0] >= 'b'
    ensures "id" in FindingFields()
  {
    assert FindingFields()[7] == "id";
  }

  lemma CycleFieldsDistinct()
    ensures Distinct(CycleFields())
  {
  }

  lemma FindingFieldsDistinct()
    ensures Distinct(FindingFields())
  {
  }

  lemma V4Separates(c: Row, f: Row)
    ensures Canonical(c, CycleFields()) != Canonical(f, FindingFields())
  {
    CycleFieldsStart();
    FindingFieldsStart();
    SmallestFirst(FindingFields());
    EncodingsDiffer(CycleFields(), FindingFields(), c, f);
  }

  lemma V4IsSound()
    ensures Sound(V4())
  {
    CycleFieldsPlain();
    FindingFieldsPlain();
    FindingFieldsStart();
    forall c: Row, f: Row
      ensures Canonical(c, CycleFields()) != Canonical(f, FindingFields())
    {
      V4Separates(c, f);
    }
  }

  /**
   * Tamper evidence: whoever shows any cycle with the root of an unambiguous one shows
   * the same metadata and the same findings, or two colliding inputs of the hash.
   */
  lemma TamperEvidence(h: Hash, c: Row, fs: seq<Finding>, d: Row, gs: seq<Finding>)
    requires UnambiguousCycle(h, V4(), c, fs)
    requires CycleMerkleRoot(h, V4(), c, fs) == CycleMerkleRoot(h, V4(), d, gs)
    ensures SameCycle(h, V4(), c, fs, d, gs) ||
            CollisionAmong(h, HashInputs(h, Records(h, V4(), c, fs)), HashInputs(h, Records(h, V4(), d, gs)))
  {
    V4IsSound();
    EqualRootsSameCycle(h, V4(), c, fs, d, gs);
  }

  // ---- the attested columns, by name ---------------------------------------

  /** cycle_merkle_root, as it is published. */
  function PublishedRoot(h: Hash, cycle: Row, findings: seq<Finding>): string {
    CycleMerkleRoot(h, V4(), cycle, findings)
  }

  predicate Alike(r: Row, s: Row, column: string) {
    Rendered(r, column) == Rendered(s, column)
  }

  predicate SameMetadata(r: Row, s: Row) {
    Alike(r, s, "cycle_id") && Alike(r, s, "cycle_html_sha256") && Alike(r, s, "cycle_pdf_sha256") &&
    Alike(r, s, "engine_sha") && Alike(r, s, "finished_at") && Alike(r, s, "n_confirmed") &&
    Alike(r, s, "n_dispatched") && Alike(r, s, "started_at") && Alike(r, s, "target_id") &&
    Alike(r, s, "wrapper_sha")
  }

  lemma AlikeCons(r: Row, s: Row, column: string, columns: seq<string>)
    ensures SameRendering(r, s, [column] + columns) <==> Alike(r, s, column) && SameRendering(r, s, columns)
  {
    assert forall c :: c in [column] + columns <==> c == column || c in columns;
  }

  lemma AlikeInFive(r: Row, s: Row, a: string, b: string, c: string, d: string, e: string)
    ensures SameRendering(r, s, [a, b, c, d, e]) <==>
            Alike(r, s, a) && Alike(r, s, b) && Alike(r, s, c) && Alike(r, s, d) && Alike(r, s, e)
  {
    assert forall x :: x in [a, b, c, d, e] <==> x == a || x == b || x == c || x == d || x == e;
  }

  lemma AlikeInTen(r: Row, s: Row, a: string, b: string, c: string, d: string, e: string,
                   f: string, g: string, i: string, j: string, k: string)
    ensures SameRendering(r, s, [a, b, c, d, e, f, g, i, j, k]) <==>
            Alike(r, s, a) && Alike(r, s, b) && Alike(r, s, c) && Alike(r, s, d) && Alike(r, s, e) &&
            Alike(r, s, f) && Alike(r, s, g) && Alike(r, s, i) && Alike(r, s, j) && Alike(r, s, k)
  {
    var five, other := [a, b, c, d, e], [f, g, i, j, k];
    assert [a, b, c, d, e, f, g, i, j, k] == five + other;
    AlikeInFive(r, s, a, b, c, d, e);
    AlikeInFive(r, s, f, g, i, j, k);
    AlikeConcat(r, s, five, other);
  }

  lemma AlikeConcat(r: Row, s: Row, xs: seq<string>, ys: seq<string>)
    ensures SameRendering(r, s, xs + ys) <==> SameRendering(r, s, xs) && SameRendering(r, s, ys)
  {
    assert forall c :: c in xs + ys <==> c in xs || c in ys;
  }

  lemma AlikeInFourteen(r: Row, s: Row, w: string, x: string, y: string, z: string, a: string, b: string, c: string,
                        d: string, e: string, f: string, g: string, i: string, j: string, k: string)
    ensures SameRendering(r, s, [w, x, y, z, a, b, c, d, e, f, g, i, j, k]) <==>
            Alike(r, s, w) && Alike(r, s, x) && Alike(r, s, y) && Alike(r, s, z) &&
            Alike(r, s, a) && Alike(r, s, b) && Alike(r, s, c) && Alike(r, s, d) && Alike(r, s, e) &&
            Alike(r, s, f) && Alike(r, s, g) && Alike(r, s, i) && Alike(r, s, j) && Alike(r, s, k)
  {
    var ten := [a, b, c, d, e, f, g, i, j, k];
    assert [w, x, y, z, a, b, c, d, e, f, g, i, j, k] == [w] + ([x] + ([y] + ([z] + ten)));
    AlikeInTen(r, s, a, b, c, d, e, f, g, i, j, k);
    AlikeCons(r, s, z, ten);
    AlikeCons(r, s, y, [z] + ten);
    AlikeCons(r, s, x, [y] + ([z] + ten));
    AlikeCons(r, s, w, [x] + ([y] + ([z] + ten)));
  }

  lemma SameMetadataIff(r: Row, s: Row)
    ensures SameMetadata(r, s) <==> SameRendering(r, s, CycleFields())
  {
    AlikeInTen(r, s, "cycle_id", "cycle_html_sha256", "cycle_pdf_sha256", "engine_sha", "finished_at",
               "n_confirmed", "n_dispatched", "started_at", "target_id", "wrapper_sha");
  }

  /** The fourteen columns of a finding row whose digest is filled in. */
  predicate SameColumns(r: Row, s: Row) {
    Alike(r, s, "bug_class") && Alike(r, s, "bundle_digest") && Alike(r, s, "confidence") && Alike(r, s, "cycle_id") &&
    Alike(r, s, "details_digest") && Alike(r, s, "engine_sha") && Alike(r, s, "hypothesis_id") && Alike(r, s, "id") &&
    Alike(r, s, "poc_fired") && Alike(r, s, "severity") && Alike(r, s, "status") && Alike(r, s, "title") &&
    Alike(r, s, "verdict") && Alike(r, s, "wrapper_sha")
  }

  lemma SameColumnsIff(r: Row, s: Row)
    ensures SameColumns(r, s) <==> SameRendering(r, s, FindingFields())
  {
    AlikeInFourteen(r, s, "bug_class", "bundle_digest", "confidence", "cycle_id", "details_digest", "engine_sha",
                    "hypothesis_id", "id", "poc_fired", "severity", "status", "title", "verdict", "wrapper_sha");
  }

  /** The digest of the details stands in for a missing digest column; all other columns are as they were. */
  lemma DigestIsFilledIn(h: Hash, f: Finding, column: string)
    ensures Rendered(WithDigest(h, f), column) ==
            if column != "details_digest" || column in f.columns then Rendered(f.columns, column)
            else if f.details.None? then ""
            else Hex(h(Utf8(f.details.value)))
  {
  }

  predicate SameFinding(h: Hash, f: Finding, g: Finding) {
    SameColumns(WithDigest(h, f), WithDigest(h, g))
  }

  /** Findings that agree in these columns have one record, and an unambiguous one has it with no other. */
  lemma SameFindingSameRecord(h: Hash, f: Finding, g: Finding)
    ensures SameFinding(h, f, g) ==> FindingRecord(h, V4(), f) == FindingRecord(h, V4(), g)
    ensures UnambiguousRow(WithDigest(h, f), FindingFields()) &&
            FindingRecord(h, V4(), f) == FindingRecord(h, V4(), g) ==>
              SameFinding(h, f, g)
  {
    var r, s := WithDigest(h, f), WithDigest(h, g);
    SameColumnsIff(r, s);
    if SameFinding(h, f, g) {
      SameValuesSameEncoding(r, s, FindingFields());
    }
    FindingFieldsPlain();
    if UnambiguousRow(r, FindingFields()) && Canonical(r, FindingFields()) == Canonical(s, FindingFields()) {
      CanonicalInjective(r, s, FindingFields());
    }
  }

  lemma SameMetadataSameRecord(r: Row, s: Row)
    ensures SameMetadata(r, s) ==> Canonical(r, CycleFields()) == Canonical(s, CycleFields())
  {
    SameMetadataIff(r, s);
    if SameMetadata(r, s) {
      SameValuesSameEncoding(r, s, CycleFields());
    }
  }

  predicate IsIn(h: Hash, f: Finding, gs: seq<Finding>) {
    exists j :: 0 <= j < |gs| && SameFinding(h, f, gs[j])
  }

  /** Every finding of one cycle is in the other. */
  predicate AllIn(h: Hash, fs: seq<Finding>, gs: seq<Finding>) {
    forall i :: 0 <= i < |fs| ==> IsIn(h, fs[i], gs)
  }

  lemma RenderedPartner(h: Hash, fs: seq<Finding>, gs: seq<Finding>, i: nat)
    requires i < |fs| && RenderedFindings(h, V4(), fs)[i] in RenderedFindings(h, V4(), gs)
    ensures IsIn(h, fs[i], gs)
  {
    var j :| 0 <= j < |gs| && RenderedFindings(h, V4(), gs)[j] == RenderedFindings(h, V4(), fs)[i];
    RenderedIff(WithDigest(h, fs[i]), WithDigest(h, gs[j]), FindingFields());
    SameColumnsIff(WithDigest(h, fs[i]), WithDigest(h, gs[j]));
  }

  lemma RenderedAllIn(h: Hash, fs: seq<Finding>, gs: seq<Finding>)
    requires forall r :: r in RenderedFindings(h, V4(), fs) ==> r in RenderedFindings(h, V4(), gs)
    ensures AllIn(h, fs, gs)
  {
    forall i | 0 <= i < |fs|
      ensures IsIn(h, fs[i], gs)
    {
      assert RenderedFindings(h, V4(), fs)[i] in RenderedFindings(h, V4(), fs);
      RenderedPartner(h, fs, gs, i);
    }
  }

  /**
   * Tamper evidence by name: whoever shows a cycle with the published root of an unambiguous
   * one shows the same ten metadata columns and findings with the same fourteen columns, or
   * two colliding inputs of the hash.
   */
  lemma EveryColumnIsAttested(h: Hash, c: Row, fs: seq<Finding>, d: Row, gs: seq<Finding>)
    requires UnambiguousCycle(h, V4(), c, fs)
    requires PublishedRoot(h, c, fs) == PublishedRoot(h, d, gs)
    ensures (SameMetadata(c, d) && AllIn(h, fs, gs) && AllIn(h, gs, fs)) ||
            CollisionAmong(h, HashInputs(h, Records(h, V4(), c, fs)), HashInputs(h, Records(h, V4(), d, gs)))
  {
    TamperEvidence(h, c, fs, d, gs);
    if SameCycle(h, V4(), c, fs, d, gs) {
      RenderedIff(c, d, CycleFields());
      SameMetadataIff(c, d);
      RenderedAllIn(h, fs, gs);
      RenderedAllIn(h, gs, fs);
    }
  }

  /** And nothing else is: cycles that agree in these columns, finding by finding, have one root. */
  lemma NothingElseIsAttested(h: Hash, c: Row, fs: seq<Finding>, d: Row, gs: seq<Finding>)
    requires SameMetadata(c, d) && |fs| == |gs| && forall i :: 0 <= i < |fs| ==> SameFinding(h, fs[i], gs[i])
    ensures PublishedRoot(h, c, fs) == PublishedRoot(h, d, gs)
  {
    SameMetadataSameRecord(c, d);
    forall i | 0 <= i < |fs|
      ensures FindingRecord(h, V4(), fs[i]) == FindingRecord(h, V4(), gs[i])
    {
      SameFindingSameRecord(h, fs[i], gs[i]);
    }
    assert FindingRecords(h, V4(), fs) == FindingRecords(h, V4(), gs);
  }
}
