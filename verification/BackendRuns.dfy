// What holds over whole sequences of upsert_finding / transition_finding calls:
// the transition log is a legal chain, and the two backends stay in step.
module BackendRuns {
  import opened Bytes
  import opened Lifecycle
  import opened FindingsStore

  /** A caller knows a finding by its key; `transition_finding` takes the id its backend gave it. */
  datatype Call =
    | UpsertCall(u: Upsert)
    | TransitionCall(key: Key, to: Status, reason: string, actor: string, now: string)
  {
    function Subject(): Key {
      match this
      case UpsertCall(u) => u.key
      case TransitionCall(k, _, _, _, _) => k
    }
  }

  /** The id a backend gave a key; an id it never gave stands for an unknown finding. */
  function IdOf(s: Store, key: Key): nat {
    if key in s.index then s.index[key] else s.nextId
  }

  function SqliteCall(s: Store, c: Call): Store
    requires WellFormed(s)
  {
    match c
    case UpsertCall(u) => SqliteUpsert(s, u)
    case TransitionCall(key, to, reason, actor, now) => Transitioned(s, IdOf(s, key), to, reason, actor, now)
  }

  function PgCall(s: Store, c: Call): Store
    requires WellFormed(s)
  {
    match c
    case UpsertCall(u) => PgUpsert(s, u)
    case TransitionCall(key, to, reason, actor, now) => Transitioned(s, IdOf(s, key), to, reason, actor, now)
  }

  /** What a call raises, if anything. */
  function SqliteRaises(s: Store, c: Call): Option<DbError>
    requires WellFormed(s)
  {
    match c
    case UpsertCall(_) => None
    case TransitionCall(key, to, _, _, _) => TransitionRefusal(s, IdOf(s, key), to)
  }

  function PgRaises(s: Store, c: Call): Option<DbError>
    requires WellFormed(s)
  {
    match c
    case UpsertCall(u) => PgRefusal(s, u)
    case TransitionCall(key, to, _, _, _) => TransitionRefusal(s, IdOf(s, key), to)
  }

  lemma CallsKeepWellFormed(s: Store, c: Call)
    requires WellFormed(s)
    ensures WellFormed(SqliteCall(s, c)) && WellFormed(PgCall(s, c))
  {
    match c
    case UpsertCall(u) => UpsertKeepsWellFormed(s, u);
    case TransitionCall(key, to, reason, actor, now) =>
      TransitionKeepsWellFormed(s, IdOf(s, key), to, reason, actor, now);
  }

  ghost function SqliteRun(s: Store, calls: seq<Call>): (r: Store)
    requires WellFormed(s)
    ensures WellFormed(r)
    decreases |calls|
  {
    if calls == [] then s
    else CallsKeepWellFormed(s, calls[0]); SqliteRun(SqliteCall(s, calls[0]), calls[1..])
  }

  ghost function PgRun(s: Store, calls: seq<Call>): (r: Store)
    requires WellFormed(s)
    ensures WellFormed(r)
    decreases |calls|
  {
    if calls == [] then s
    else CallsKeepWellFormed(s, calls[0]); PgRun(PgCall(s, calls[0]), calls[1..])
  }

  /** The exceptions of a run, call by call. */
  ghost function SqliteTrace(s: Store, calls: seq<Call>): seq<Option<DbError>>
    requires WellFormed(s)
    decreases |calls|
  {
    CallsKeepWellFormedAll(s);
    if calls == [] then [] else [SqliteRaises(s, calls[0])] + SqliteTrace(SqliteCall(s, calls[0]), calls[1..])
  }

  ghost function PgTrace(s: Store, calls: seq<Call>): seq<Option<DbError>>
    requires WellFormed(s)
    decreases |calls|
  {
    CallsKeepWellFormedAll(s);
    if calls == [] then [] else [PgRaises(s, calls[0])] + PgTrace(PgCall(s, calls[0]), calls[1..])
  }

  lemma CallsKeepWellFormedAll(s: Store)
    requires WellFormed(s)
    ensures forall c: Call :: WellFormed(SqliteCall(s, c)) && WellFormed(PgCall(s, c))
  {
    forall c: Call
      ensures WellFormed(SqliteCall(s, c)) && WellFormed(PgCall(s, c))
    {
      CallsKeepWellFormed(s, c);
    }
  }

  // ---- what a backend knows of one finding ---------------------------------

  function LogOf(log: seq<Transition>, id: nat): seq<Entry> {
    if log == [] then []
    else
      var last := log[|log| - 1];
      LogOf(log[..|log| - 1], id) + (if last.findingId == id then [last.entry] else [])
  }

  lemma LogExtends(log: seq<Transition>, t: Transition, id: nat)
    ensures LogOf(log + [t], id) == if t.findingId == id then LogOf(log, id) + [t.entry] else LogOf(log, id)
  {
    assert (log + [t])[..|log|] == log;
    assert LogOf(log, id) + [] == LogOf(log, id);
  }

  lemma {:induction false} LogOfUnknown(log: seq<Transition>, id: nat)
    requires forall i :: 0 <= i < |log| ==> log[i].findingId != id
    ensures LogOf(log, id) == []
  {
    if log != [] {
      LogOfUnknown(log[..|log| - 1], id);
    }
  }

  /** A finding's row and its transition rows in insertion order. */
  datatype View = View(row: Finding, log: seq<Entry>)

  function ViewOf(s: Store, key: Key): Option<View>
    requires WellFormed(s)
  {
    if key in s.index then Some(View(s.findings[s.index[key]], LogOf(s.transitions, s.index[key]))) else None
  }

  /** An update seen from the finding it updates. */
  function UpdatedView(v: View, u: Upsert, extras: Extras): View {
    var status := Advance(v.row.status, u.status);
    View(Finding(v.row.key, u.core, status, extras, v.row.createdAt, u.now),
         if status == v.row.status then v.log
         else v.log + [Entry(Some(v.row.status), status, ADVANCE_REASON, "system", u.now)])
  }

  function ViewRefusal(v: Option<View>, to: Status): Option<DbError> {
    match v
    case None => Some(FindingNotFound)
    case Some(v) =>
      match ParseStatus(v.row.status)
      case None => Some(StaleStatus)
      case Some(from) => if CanMove(from, to) then None else Some(InvalidTransition)
  }

  /** A call seen from its subject. */
  function TransitionedView(v: Option<View>, to: Status, reason: string, actor: string, now: string): Option<View> {
    if ViewRefusal(v, to).Some? then v
    else
      Some(View(v.value.row.(status := ValueOf(to), updatedAt := now),
                v.value.log + [Entry(Some(v.value.row.status), ValueOf(to), reason, actor, now)]))
  }

  function SqliteView(v: Option<View>, c: Call): Option<View> {
    match c
    case UpsertCall(u) =>
      (match v
       case None => Some(View(NewFinding(u), [Entry(None, ValueOf(u.status), INITIAL_REASON, "system", u.now)]))
       case Some(v) => Some(UpdatedView(v, u, CoalesceAll(u.extras, v.row.extras))))
    case TransitionCall(_, to, reason, actor, now) => TransitionedView(v, to, reason, actor, now)
  }

  function PgView(v: Option<View>, c: Call, targets: set<int>): Option<View> {
    match c
    case UpsertCall(u) =>
      (match v
       case None => if u.key.targetId in targets then Some(View(NewFinding(u), [])) else None
       case Some(v) => Some(if ParseStatus(v.row.status).None? then v else UpdatedView(v, u, u.extras)))
    case TransitionCall(_, to, reason, actor, now) => TransitionedView(v, to, reason, actor, now)
  }

  /** Writing a row back changes the view of its key alone. */
  lemma WriteIsView(s: Store, id: nat, f: Finding, key: Key)
    requires WellFormed(s) && id in s.findings && f.key == s.findings[id].key
    ensures WellFormed(SetFinding(s, id, f))
    ensures ViewOf(SetFinding(s, id, f), key) ==
            if key == f.key then Some(View(f, LogOf(s.transitions, id))) else ViewOf(s, key)
  {
  }

  /** So does logging. */
  lemma LogIsView(s: Store, id: nat, e: Entry, key: Key)
    requires WellFormed(s) && id in s.findings
    ensures WellFormed(AppendEntry(s, id, e))
    ensures ViewOf(AppendEntry(s, id, e), key) ==
            if key == s.findings[id].key then Some(View(s.findings[id], LogOf(s.transitions, id) + [e]))
            else ViewOf(s, key)
  {
    if key in s.index {
      LogExtends(s.transitions, Transition(id, e), s.index[key]);
    }
  }

  lemma InsertIsView(s: Store, u: Upsert, key: Key)
    requires WellFormed(s) && u.key !in s.index
    ensures WellFormed(Insert(s, u))
    ensures ViewOf(Insert(s, u), key) == if key == u.key then Some(View(NewFinding(u), [])) else ViewOf(s, key)
  {
    InsertKeepsWellFormed(s, u);
    LogOfUnknown(s.transitions, s.nextId);
  }

  lemma UpdateIsView(s: Store, u: Upsert, extras: Extras, key: Key)
    requires WellFormed(s) && u.key in s.index
    ensures WellFormed(Update(s, s.index[u.key], u, extras))
    ensures ViewOf(Update(s, s.index[u.key], u, extras), key) ==
            if key == u.key then Some(UpdatedView(ViewOf(s, key).value, u, extras)) else ViewOf(s, key)
  {
    var id := s.index[u.key];
    var f := s.findings[id];
    var status := Advance(f.status, u.status);
    var f' := Finding(f.key, u.core, status, extras, f.createdAt, u.now);
    WriteIsView(s, id, f', key);
    LogIsView(SetFinding(s, id, f'), id, Entry(Some(f.status), status, ADVANCE_REASON, "system", u.now), key);
  }

  lemma SkipIdIsView(s: Store, key: Key)
    requires WellFormed(s)
    ensures WellFormed(SkipId(s)) && ViewOf(SkipId(s), key) == ViewOf(s, key)
  {
  }

  lemma PgUpdateIsView(p: Store, u: Upsert, key: Key)
    requires WellFormed(p) && u.key in p.index
    requires ParseStatus(p.findings[p.index[u.key]].status).Some?
    ensures WellFormed(PgUpsert(p, u)) && PgUpsert(p, u).targets == p.targets
    ensures ViewOf(PgUpsert(p, u), key) ==
            if key == u.key then Some(UpdatedView(ViewOf(p, key).value, u, u.extras)) else ViewOf(p, key)
  {
    UpdateIsView(p, u, u.extras, key);
    SkipIdIsView(Update(p, p.index[u.key], u, u.extras), key);
  }

  lemma PgUpsertIsView(p: Store, u: Upsert, key: Key)
    requires WellFormed(p)
    ensures WellFormed(PgUpsert(p, u)) && PgUpsert(p, u).targets == p.targets
    ensures ViewOf(PgUpsert(p, u), key) ==
            if key == u.key then PgView(ViewOf(p, key), UpsertCall(u), p.targets) else ViewOf(p, key)
  {
    if PgRefusal(p, u).Some? {
      SkipIdIsView(p, key);
    } else if u.key in p.index {
      PgUpdateIsView(p, u, key);
    } else {
      InsertIsView(p, u, key);
    }
  }

  lemma TransitionIsView(s: Store, subject: Key, to: Status, reason: string, actor: string, now: string, key: Key)
    requires WellFormed(s)
    ensures WellFormed(Transitioned(s, IdOf(s, subject), to, reason, actor, now))
    ensures TransitionRefusal(s, IdOf(s, subject), to) == ViewRefusal(ViewOf(s, subject), to)
    ensures ViewOf(Transitioned(s, IdOf(s, subject), to, reason, actor, now), key) ==
            if key == subject then TransitionedView(ViewOf(s, key), to, reason, actor, now) else ViewOf(s, key)
  {
    var id := IdOf(s, subject);
    if TransitionRefusal(s, id, to).None? {
      var f := s.findings[id];
      var f' := f.(status := ValueOf(to), updatedAt := now);
      WriteIsView(s, id, f', key);
      LogIsView(SetFinding(s, id, f'), id, Entry(Some(f.status), ValueOf(to), reason, actor, now), key);
    }
  }

  /** A SQLite call acts on its subject alone, and there as SqliteView says. */
  lemma SqliteCallView(s: Store, c: Call, key: Key)
    requires WellFormed(s)
    ensures WellFormed(SqliteCall(s, c))
    ensures ViewOf(SqliteCall(s, c), key) ==
            if key == c.Subject() then SqliteView(ViewOf(s, key), c) else ViewOf(s, key)
  {
    CallsKeepWellFormed(s, c);
    match c
    case UpsertCall(u) =>
      if u.key in s.index {
        UpdateIsView(s, u, CoalesceAll(u.extras, s.findings[s.index[u.key]].extras), key);
      } else {
        var first := Entry(None, ValueOf(u.status), INITIAL_REASON, "system", u.now);
        InsertIsView(s, u, key);
        LogIsView(Insert(s, u), s.nextId, first, key);
        InsertIsView(s, u, u.key);
        assert [] + [first] == [first];
      }
    case TransitionCall(subject, to, reason, actor, now) =>
      TransitionIsView(s, subject, to, reason, actor, now, key);
  }

  /** A Postgres call acts on its subject alone, and there as PgView says. */
  lemma PgCallView(p: Store, c: Call, key: Key)
    requires WellFormed(p)
    ensures WellFormed(PgCall(p, c)) && PgCall(p, c).targets == p.targets
    ensures ViewOf(PgCall(p, c), key) ==
            if key == c.Subject() then PgView(ViewOf(p, key), c, p.targets) else ViewOf(p, key)
  {
    match c
    case UpsertCall(u) => PgUpsertIsView(p, u, key);
    case TransitionCall(subject, to, reason, actor, now) =>
      TransitionIsView(p, subject, to, reason, actor, now, key);
  }

  // ---- the log chain -------------------------------------------------------

  predicate IsEdge(from: string, to: string) {
    ParseStatus(from).Some? && ParseStatus(to).Some? && CanMove(ParseStatus(from).value, ParseStatus(to).value)
  }

  /** Each row starts where the one before it ended, along a legal change. */
  predicate Linked(log: seq<Entry>) {
    forall i :: 0 < i < |log| ==> log[i].from == Some(log[i - 1].to) && IsEdge(log[i - 1].to, log[i].to)
  }

  /** From NULL to the current status. */
  predicate Chain(log: seq<Entry>, status: string) {
    log != [] && log[0].from == None && ParseStatus(log[0].to).Some? && Linked(log) &&
    log[|log| - 1].to == status
  }

  predicate ChainedView(v: Option<View>) {
    v.Some? ==> Chain(v.value.log, v.value.row.status)
  }

  ghost predicate Chained(s: Store)
    requires WellFormed(s)
  {
    forall key :: ChainedView(ViewOf(s, key))
  }

  lemma {:induction false} ChainRank(log: seq<Entry>, i: nat)
    requires log != [] && ParseStatus(log[0].to).Some? && Linked(log) && i < |log|
    ensures ParseStatus(log[i].to).Some? && i <= Rank(ParseStatus(log[i].to).value)
  {
    if i > 0 {
      ChainRank(log, i - 1);
      assert IsEdge(log[i - 1].to, log[i].to);
      ChangesMoveForward(ParseStatus(log[i - 1].to).value, ParseStatus(log[i].to).value);
    }
  }

  /** No finding is ever logged more than six times. */
  lemma ChainIsShort(log: seq<Entry>, status: string)
    requires Chain(log, status)
    ensures |log| <= 6 && ParseStatus(status).Some?
  {
    ChainRank(log, |log| - 1);
  }

  lemma ChainExtends(log: seq<Entry>, status: string, e: Entry)
    requires Chain(log, status) && e.from == Some(status) && IsEdge(status, e.to)
    ensures Chain(log + [e], e.to)
  {
  }

  lemma AdvanceIsEdge(current: string, proposed: Status)
    requires Advance(current, proposed) != current
    ensures IsEdge(current, Advance(current, proposed))
  {
    MovedIff(current, proposed);
    ParseOfValue(proposed);
  }

  lemma UpdatedChain(v: View, u: Upsert, extras: Extras)
    requires Chain(v.log, v.row.status)
    ensures ChainedView(Some(UpdatedView(v, u, extras)))
  {
    var status := Advance(v.row.status, u.status);
    if status != v.row.status {
      AdvanceIsEdge(v.row.status, u.status);
      ChainExtends(v.log, v.row.status, Entry(Some(v.row.status), status, ADVANCE_REASON, "system", u.now));
    }
  }

  lemma TransitionedChain(v: Option<View>, to: Status, reason: string, actor: string, now: string)
    requires ChainedView(v)
    ensures ChainedView(TransitionedView(v, to, reason, actor, now))
  {
    ParseOfValue(to);
    if ViewRefusal(v, to).None? {
      ChainExtends(v.value.log, v.value.row.status, Entry(Some(v.value.row.status), ValueOf(to), reason, actor, now));
    }
  }

  lemma ViewKeepsChain(v: Option<View>, c: Call)
    requires ChainedView(v)
    ensures ChainedView(SqliteView(v, c))
  {
    match c
    case UpsertCall(u) =>
      if v.Some? {
        UpdatedChain(v.value, u, CoalesceAll(u.extras, v.value.row.extras));
      } else {
        ParseOfValue(u.status);
      }
    case TransitionCall(_, to, reason, actor, now) => TransitionedChain(v, to, reason, actor, now);
  }

  lemma CallKeepsChained(s: Store, c: Call)
    requires WellFormed(s) && Chained(s)
    ensures WellFormed(SqliteCall(s, c)) && Chained(SqliteCall(s, c))
  {
    CallsKeepWellFormed(s, c);
    forall key
      ensures ChainedView(ViewOf(SqliteCall(s, c), key))
    {
      SqliteCallView(s, c, key);
      ViewKeepsChain(ViewOf(s, key), c);
    }
  }

  /** In every SQLite store a run can reach, every finding's log is a legal chain. */
  lemma {:induction false} LogChain(s: Store, calls: seq<Call>)
    requires WellFormed(s) && Chained(s)
    ensures Chained(SqliteRun(s, calls))
    decreases |calls|
  {
    if calls != [] {
      CallKeepsChained(s, calls[0]);
      LogChain(SqliteCall(s, calls[0]), calls[1..]);
    }
  }

  /** From an empty store: a chain from NULL to the current status, of at most six rows. */
  lemma LogChainFromEmpty(targets: set<int>, calls: seq<Call>, key: Key)
    requires ViewOf(SqliteRun(EmptyStore(targets), calls), key).Some?
    ensures var v := ViewOf(SqliteRun(EmptyStore(targets), calls), key).value;
            Chain(v.log, v.row.status) && |v.log| <= 6
  {
    LogChain(EmptyStore(targets), calls);
    var v := ViewOf(SqliteRun(EmptyStore(targets), calls), key).value;
    assert ChainedView(Some(v));
    ChainIsShort(v.log, v.row.status);
  }

  // ---- statuses only move forward ------------------------------------------

  predicate SameOrLater(before: string, after: string) {
    after == before ||
    (ParseStatus(before).Some? && ParseStatus(after).Some? &&
     Rank(ParseStatus(before).value) < Rank(ParseStatus(after).value) && !Terminal(ParseStatus(before).value))
  }

  lemma EdgeIsLater(before: string, after: string)
    requires IsEdge(before, after)
    ensures SameOrLater(before, after)
  {
    ChangesMoveForward(ParseStatus(before).value, ParseStatus(after).value);
  }

  lemma ViewMovesForward(v: View, c: Call)
    ensures SqliteView(Some(v), c).Some?
    ensures SameOrLater(v.row.status, SqliteView(Some(v), c).value.row.status)
  {
    match c
    case UpsertCall(u) =>
      if Advance(v.row.status, u.status) != v.row.status {
        AdvanceIsEdge(v.row.status, u.status);
        EdgeIsLater(v.row.status, Advance(v.row.status, u.status));
      }
    case TransitionCall(_, to, _, _, _) =>
      ParseOfValue(to);
      if ViewRefusal(Some(v), to).None? {
        EdgeIsLater(v.row.status, ValueOf(to));
      }
  }

  /** No run loses a finding, moves it back, or moves it once it is done. */
  lemma {:induction false} StatusMovesForward(s: Store, calls: seq<Call>, key: Key)
    requires WellFormed(s) && ViewOf(s, key).Some?
    ensures ViewOf(SqliteRun(s, calls), key).Some?
    ensures SameOrLater(ViewOf(s, key).value.row.status, ViewOf(SqliteRun(s, calls), key).value.row.status)
    decreases |calls|
  {
    if calls != [] {
      SqliteCallView(s, calls[0], key);
      ViewMovesForward(ViewOf(s, key).value, calls[0]);
      StatusMovesForward(SqliteCall(s, calls[0]), calls[1..], key);
    }
  }

  lemma TerminalForever(s: Store, calls: seq<Call>, key: Key)
    requires WellFormed(s) && ViewOf(s, key).Some?
    requires var status := ParseStatus(ViewOf(s, key).value.row.status); status.Some? && Terminal(status.value)
    ensures ViewOf(SqliteRun(s, calls), key).Some?
    ensures ViewOf(SqliteRun(s, calls), key).value.row.status == ViewOf(s, key).value.row.status
  {
    StatusMovesForward(s, calls, key);
  }

  // ---- the two backends ----------------------------------------------------

  /** Equal in everything but the nullable columns. */
  predicate SameRow(f: Finding, g: Finding) {
    f.(extras := g.extras) == g
  }

  /** SQLite logs the first classification; Postgres does not. */
  predicate SameLog(sqlite: seq<Entry>, pg: seq<Entry>) {
    sqlite != [] && sqlite[0].from == None && sqlite[1..] == pg
  }

  predicate InStep(v: Option<View>, w: Option<View>) {
    v.Some? == w.Some? &&
    (v.Some? ==>
       SameRow(v.value.row, w.value.row) && ParseStatus(v.value.row.status).Some? && SameLog(v.value.log, w.value.log))
  }

  ghost predicate Related(s: Store, p: Store) {
    WellFormed(s) && WellFormed(p) && forall key :: InStep(ViewOf(s, key), ViewOf(p, key))
  }

  /** An upsert finds its row, or can insert it. */
  predicate TargetKnown(p: Store, c: Call) {
    c.UpsertCall? ==> c.u.key in p.index || c.u.key.targetId in p.targets
  }

  ghost predicate TargetsKnown(p: Store, calls: seq<Call>) {
    forall i :: 0 <= i < |calls| ==> TargetKnown(p, calls[i])
  }

  lemma SameLogExtends(sqlite: seq<Entry>, pg: seq<Entry>, e: Entry)
    requires SameLog(sqlite, pg)
    ensures SameLog(sqlite + [e], pg + [e])
  {
    assert (sqlite + [e])[1..] == sqlite[1..] + [e];
  }

  lemma UpdatedInStep(v: View, w: View, u: Upsert, extras: Extras, extras': Extras)
    requires InStep(Some(v), Some(w))
    ensures InStep(Some(UpdatedView(v, u, extras)), Some(UpdatedView(w, u, extras')))
  {
    var status := Advance(v.row.status, u.status);
    ParseOfValue(u.status);
    SameLogExtends(v.log, w.log, Entry(Some(v.row.status), status, ADVANCE_REASON, "system", u.now));
  }

  lemma ViewsInStep(v: Option<View>, w: Option<View>, c: Call, targets: set<int>)
    requires InStep(v, w) && (c.UpsertCall? ==> w.Some? || c.u.key.targetId in targets)
    ensures InStep(SqliteView(v, c), PgView(w, c, targets))
  {
    match c
    case UpsertCall(u) =>
      if v.Some? {
        UpdatedInStep(v.value, w.value, u, CoalesceAll(u.extras, v.value.row.extras), u.extras);
      } else {
        ParseOfValue(u.status);
      }
    case TransitionCall(_, to, reason, actor, now) =>
      ParseOfValue(to);
      if v.Some? {
        SameLogExtends(v.value.log, w.value.log, Entry(Some(v.value.row.status), ValueOf(to), reason, actor, now));
      }
  }

  lemma SubjectsInStep(s: Store, p: Store, c: Call)
    requires Related(s, p) && TargetKnown(p, c)
    ensures InStep(SqliteView(ViewOf(s, c.Subject()), c), PgView(ViewOf(p, c.Subject()), c, p.targets))
    ensures SqliteRaises(s, c) == PgRaises(p, c)
  {
    var key := c.Subject();
    assert InStep(ViewOf(s, key), ViewOf(p, key));
    ViewsInStep(ViewOf(s, key), ViewOf(p, key), c, p.targets);
    if c.TransitionCall? {
      TransitionIsView(s, key, c.to, c.reason, c.actor, c.now, key);
      TransitionIsView(p, key, c.to, c.reason, c.actor, c.now, key);
    }
  }

  /** One call: the same exception, and the backends still in step. */
  lemma CallInStep(s: Store, p: Store, c: Call)
    requires Related(s, p) && TargetKnown(p, c)
    ensures SqliteRaises(s, c) == PgRaises(p, c)
    ensures Related(SqliteCall(s, c), PgCall(p, c))
    ensures PgCall(p, c).targets == p.targets
  {
    CallsKeepWellFormed(s, c);
    CallsKeepWellFormed(p, c);
    SubjectsInStep(s, p, c);
    forall key
      ensures InStep(ViewOf(SqliteCall(s, c), key), ViewOf(PgCall(p, c), key))
    {
      SqliteCallView(s, c, key);
      PgCallView(p, c, key);
      assert InStep(ViewOf(s, key), ViewOf(p, key));
    }
    PgCallView(p, c, c.Subject());
  }

  /** A call changes nothing of which later upserts find their row or their target. */
  lemma KnownStays(p: Store, c: Call, c': Call)
    requires WellFormed(p) && TargetKnown(p, c)
    ensures TargetKnown(PgCall(p, c), c') <==> TargetKnown(p, c')
  {
    match c'
    case UpsertCall(u) =>
      PgCallView(p, c, u.key);
      assert ViewOf(p, u.key).Some? <==> u.key in p.index;
      assert ViewOf(PgCall(p, c), u.key).Some? <==> u.key in PgCall(p, c).index;
    case TransitionCall(_, _, _, _, _) =>
  }

  lemma TargetsCons(p: Store, calls: seq<Call>)
    requires calls != []
    ensures TargetsKnown(p, calls) <==> TargetKnown(p, calls[0]) && TargetsKnown(p, calls[1..])
  {
    var rest := calls[1..];
    forall i | 1 <= i < |calls|
      ensures calls[i] == rest[i - 1]
    {
    }
  }

  lemma TargetsStayKnown(p: Store, calls: seq<Call>)
    requires WellFormed(p) && calls != [] && TargetKnown(p, calls[0])
    ensures WellFormed(PgCall(p, calls[0]))
    ensures TargetsKnown(p, calls) <==> TargetsKnown(PgCall(p, calls[0]), calls[1..])
  {
    CallsKeepWellFormed(p, calls[0]);
    TargetsCons(p, calls);
    var rest := calls[1..];
    forall i | 0 <= i < |rest|
      ensures TargetKnown(PgCall(p, calls[0]), rest[i]) <==> TargetKnown(p, rest[i])
    {
      KnownStays(p, calls[0], rest[i]);
    }
  }

  /**
   * Backend simulation: any sequence of calls raises in the same places and leaves
   * equal statuses, verdicts, confidences, severities and flags, with SQLite's log of
   * every finding one initial row followed by Postgres's.
   */
  lemma {:induction false} BackendSimulation(s: Store, p: Store, calls: seq<Call>)
    requires Related(s, p) && TargetsKnown(p, calls)
    ensures SqliteTrace(s, calls) == PgTrace(p, calls)
    ensures Related(SqliteRun(s, calls), PgRun(p, calls))
    decreases |calls|
  {
    if calls != [] {
      CallInStep(s, p, calls[0]);
      TargetsStayKnown(p, calls);
      BackendSimulation(SqliteCall(s, calls[0]), PgCall(p, calls[0]), calls[1..]);
    }
  }

  lemma UnknownTargetParts(s: Store, p: Store, c: Call)
    requires WellFormed(s) && WellFormed(p) && !TargetKnown(p, c)
    ensures SqliteRaises(s, c) != PgRaises(p, c)
  {
    assert SqliteRaises(s, c) == None;
  }

  /**
   * Two related backends raise in the same places exactly when every upsert is of a
   * finding that Postgres has at the start or of a target it knows.
   */
  lemma {:induction false} TracesAgreeIff(s: Store, p: Store, calls: seq<Call>)
    requires Related(s, p)
    ensures SqliteTrace(s, calls) == PgTrace(p, calls) <==> TargetsKnown(p, calls)
    decreases |calls|
  {
    if calls != [] {
      if TargetKnown(p, calls[0]) {
        CallInStep(s, p, calls[0]);
        TargetsStayKnown(p, calls);
        TracesAgreeIff(SqliteCall(s, calls[0]), PgCall(p, calls[0]), calls[1..]);
        assert SqliteTrace(s, calls)[1..] == SqliteTrace(SqliteCall(s, calls[0]), calls[1..]);
        assert PgTrace(p, calls)[1..] == PgTrace(PgCall(p, calls[0]), calls[1..]);
      } else {
        UnknownTargetParts(s, p, calls[0]);
        assert SqliteTrace(s, calls)[0] != PgTrace(p, calls)[0];
      }
    }
  }

  lemma EmptyStoresRelated(targets: set<int>)
    ensures Related(EmptyStore(targets), EmptyStore(targets)) && Chained(EmptyStore(targets))
  {
  }

  // ---- where the backends part ---------------------------------------------

  /**
   * Exactly when an upsert raises in one backend and not in the other: the target
   * row is missing for a new finding, or the stored status is not a status any more.
   */
  lemma UpsertsPartIff(s: Store, p: Store, u: Upsert)
    requires WellFormed(s) && WellFormed(p)
    ensures SqliteRaises(s, UpsertCall(u)) != PgRaises(p, UpsertCall(u)) <==>
            match ViewOf(p, u.key)
            case Some(v) => ParseStatus(v.row.status).None?
            case None => u.key.targetId !in p.targets
  {
    assert SqliteRaises(s, UpsertCall(u)) == None;
  }

  /** A column on which COALESCE and plain assignment agree. */
  predicate ColumnAgrees(given: Option<string>, stored: Option<string>) {
    given.Some? || stored.None?
  }

  predicate ColumnsAgree(given: Extras, stored: Extras) {
    ColumnAgrees(given.title, stored.title) && ColumnAgrees(given.pocPath, stored.pocPath) &&
    ColumnAgrees(given.engineSha, stored.engineSha) && ColumnAgrees(given.wrapperSha, stored.wrapperSha) &&
    ColumnAgrees(given.detailsJson, stored.detailsJson) && ColumnAgrees(given.bugClass, stored.bugClass)
  }

  predicate SameExtras(v: Option<View>, w: Option<View>) {
    v.Some? && w.Some? ==> v.value.row.extras == w.value.row.extras
  }

  lemma ExtrasAgreeIff(v: View, w: View, u: Upsert, targets: set<int>)
    requires InStep(Some(v), Some(w)) && SameExtras(Some(v), Some(w))
    ensures SameExtras(SqliteView(Some(v), UpsertCall(u)), PgView(Some(w), UpsertCall(u), targets)) <==>
            ColumnsAgree(u.extras, v.row.extras)
  {
    var c, stored := CoalesceAll(u.extras, v.row.extras), v.row.extras;
    assert c.title == u.extras.title <==> ColumnAgrees(u.extras.title, stored.title);
    assert c.pocPath == u.extras.pocPath <==> ColumnAgrees(u.extras.pocPath, stored.pocPath);
    assert c.engineSha == u.extras.engineSha <==> ColumnAgrees(u.extras.engineSha, stored.engineSha);
    assert c.wrapperSha == u.extras.wrapperSha <==> ColumnAgrees(u.extras.wrapperSha, stored.wrapperSha);
    assert c.detailsJson == u.extras.detailsJson <==> ColumnAgrees(u.extras.detailsJson, stored.detailsJson);
    assert c.bugClass == u.extras.bugClass <==> ColumnAgrees(u.extras.bugClass, stored.bugClass);
  }

  /** Exactly when an update leaves the nullable columns equal: no None overwrites a stored value. */
  lemma NullableColumnsAgreeIff(s: Store, p: Store, u: Upsert)
    requires Related(s, p) && ViewOf(s, u.key).Some? && SameExtras(ViewOf(s, u.key), ViewOf(p, u.key))
    ensures WellFormed(SqliteUpsert(s, u)) && WellFormed(PgUpsert(p, u))
    ensures SameExtras(ViewOf(SqliteUpsert(s, u), u.key), ViewOf(PgUpsert(p, u), u.key)) <==>
            ColumnsAgree(u.extras, ViewOf(s, u.key).value.row.extras)
  {
    SqliteCallView(s, UpsertCall(u), u.key);
    PgCallView(p, UpsertCall(u), u.key);
    assert InStep(ViewOf(s, u.key), ViewOf(p, u.key));
    ExtrasAgreeIff(ViewOf(s, u.key).value, ViewOf(p, u.key).value, u, p.targets);
  }

  predicate AllGiven(c: Call) {
    c.UpsertCall? ==>
      var e := c.u.extras;
      e.title.Some? && e.pocPath.Some? && e.engineSha.Some? && e.wrapperSha.Some? &&
      e.detailsJson.Some? && e.bugClass.Some?
  }

  ghost predicate SameNullable(s: Store, p: Store)
    requires WellFormed(s) && WellFormed(p)
  {
    forall key :: SameExtras(ViewOf(s, key), ViewOf(p, key))
  }

  lemma CallKeepsNullable(s: Store, p: Store, c: Call)
    requires Related(s, p) && SameNullable(s, p) && TargetKnown(p, c) && AllGiven(c)
    ensures WellFormed(SqliteCall(s, c)) && WellFormed(PgCall(p, c))
    ensures SameNullable(SqliteCall(s, c), PgCall(p, c))
  {
    CallsKeepWellFormed(s, c);
    CallsKeepWellFormed(p, c);
    forall key
      ensures SameExtras(ViewOf(SqliteCall(s, c), key), ViewOf(PgCall(p, c), key))
    {
      SqliteCallView(s, c, key);
      PgCallView(p, c, key);
      assert InStep(ViewOf(s, key), ViewOf(p, key)) && SameExtras(ViewOf(s, key), ViewOf(p, key));
      if c.UpsertCall? && ViewOf(s, key).Some? {
        ExtrasAgreeIff(ViewOf(s, key).value, ViewOf(p, key).value, c.u, p.targets);
      }
    }
  }

  /** When every call passes every nullable column, the backends agree on those too. */
  lemma {:induction false} NullableColumnsAgree(s: Store, p: Store, calls: seq<Call>)
    requires Related(s, p) && SameNullable(s, p) && TargetsKnown(p, calls)
    requires forall i :: 0 <= i < |calls| ==> AllGiven(calls[i])
    ensures SameNullable(SqliteRun(s, calls), PgRun(p, calls))
    decreases |calls|
  {
    if calls != [] {
      CallInStep(s, p, calls[0]);
      CallKeepsNullable(s, p, calls[0]);
      TargetsStayKnown(p, calls);
      NullableColumnsAgree(SqliteCall(s, calls[0]), PgCall(p, calls[0]), calls[1..]);
    }
  }

  // ---- a nullable column over a whole run ----------------------------------

  datatype Column = Title | PocPath | EngineSha | WrapperSha | DetailsJson | BugClass

  function Cell(e: Extras, col: Column): Option<string> {
    match col
    case Title => e.title
    case PocPath => e.pocPath
    case EngineSha => e.engineSha
    case WrapperSha => e.wrapperSha
    case DetailsJson => e.detailsJson
    case BugClass => e.bugClass
  }

  /** The column of one finding; NULL for a finding that is not there. */
  function CellOf(v: Option<View>, col: Column): Option<string> {
    if v.None? then None else Cell(v.value.row.extras, col)
  }

  function GivenBy(c: Call, key: Key, col: Column): seq<Option<string>> {
    if c.UpsertCall? && c.u.key == key then [Cell(c.u.extras, col)] else []
  }

  /** What the upserts of one finding pass for the column, in order. */
  function Given(calls: seq<Call>, key: Key, col: Column): seq<Option<string>> {
    if calls == [] then [] else GivenBy(calls[0], key, col) + Given(calls[1..], key, col)
  }

  /** SQLite keeps the last value that was given. */
  function Kept(stored: Option<string>, given: seq<Option<string>>): Option<string>
    decreases |given|
  {
    if given == [] then stored else Kept(Coalesce(given[0], stored), given[1..])
  }

  /** Postgres stores the last argument, NULL or not. */
  function Overwritten(stored: Option<string>, given: seq<Option<string>>): Option<string> {
    if given == [] then stored else given[|given| - 1]
  }

  lemma KeptCons(stored: Option<string>, a: seq<Option<string>>, b: seq<Option<string>>)
    requires |a| <= 1
    ensures Kept(stored, a + b) == Kept(Kept(stored, a), b)
    ensures Overwritten(stored, a + b) == Overwritten(Overwritten(stored, a), b)
  {
    if a == [] {
      assert a + b == b;
    } else {
      assert (a + b)[1..] == b && a[1..] == [];
    }
  }

  lemma CellOfCoalesced(n: Extras, o: Extras, col: Column)
    ensures Cell(CoalesceAll(n, o), col) == Kept(Cell(o, col), [Cell(n, col)])
    ensures Cell(n, col) == Kept(None, [Cell(n, col)])
  {
    assert [Cell(n, col)][1..] == [];
  }

  lemma CellInViews(v: Option<View>, w: Option<View>, c: Call, targets: set<int>, col: Column)
    requires InStep(v, w) && (c.UpsertCall? ==> w.Some? || c.u.key.targetId in targets)
    ensures CellOf(SqliteView(v, c), col) == Kept(CellOf(v, col), GivenBy(c, c.Subject(), col))
    ensures CellOf(PgView(w, c, targets), col) == Overwritten(CellOf(w, col), GivenBy(c, c.Subject(), col))
  {
    match c
    case UpsertCall(u) => CellOfCoalesced(u.extras, if v.Some? then v.value.row.extras else u.extras, col);
    case TransitionCall(_, _, _, _, _) =>
  }

  lemma CellAfterCall(s: Store, p: Store, c: Call, key: Key, col: Column)
    requires Related(s, p) && TargetKnown(p, c)
    ensures WellFormed(SqliteCall(s, c)) && WellFormed(PgCall(p, c))
    ensures CellOf(ViewOf(SqliteCall(s, c), key), col) == Kept(CellOf(ViewOf(s, key), col), GivenBy(c, key, col))
    ensures CellOf(ViewOf(PgCall(p, c), key), col) == Overwritten(CellOf(ViewOf(p, key), col), GivenBy(c, key, col))
  {
    SqliteCallView(s, c, key);
    PgCallView(p, c, key);
    assert InStep(ViewOf(s, key), ViewOf(p, key));
    if key == c.Subject() {
      CellInViews(ViewOf(s, key), ViewOf(p, key), c, p.targets, col);
    }
  }

  /** What a run leaves in a column of a finding, in each backend. */
  lemma {:induction false} CellAfterRun(s: Store, p: Store, calls: seq<Call>, key: Key, col: Column)
    requires Related(s, p) && TargetsKnown(p, calls)
    ensures CellOf(ViewOf(SqliteRun(s, calls), key), col) == Kept(CellOf(ViewOf(s, key), col), Given(calls, key, col))
    ensures CellOf(ViewOf(PgRun(p, calls), key), col)
         == Overwritten(CellOf(ViewOf(p, key), col), Given(calls, key, col))
    decreases |calls|
  {
    if calls != [] {
      var c, rest := calls[0], calls[1..];
      CallInStep(s, p, c);
      TargetsStayKnown(p, calls);
      CellAfterCall(s, p, c, key, col);
      CellAfterRun(SqliteCall(s, c), PgCall(p, c), rest, key, col);
      KeptCons(CellOf(ViewOf(s, key), col), GivenBy(c, key, col), Given(rest, key, col));
      KeptCons(CellOf(ViewOf(p, key), col), GivenBy(c, key, col), Given(rest, key, col));
    }
  }

  /** The last upsert passes a value; or none does, and nothing was stored; or there is none. */
  predicate LosesNothing(stored: Option<string>, given: seq<Option<string>>) {
    given == [] || given[|given| - 1].Some? ||
    (stored.None? && forall i :: 0 <= i < |given| ==> given[i].None?)
  }

  lemma {:induction false} KeptIsOverwrittenIff(stored: Option<string>, given: seq<Option<string>>)
    ensures Kept(stored, given) == Overwritten(stored, given) <==> LosesNothing(stored, given)
    ensures Kept(stored, given).None? <==> stored.None? && forall i :: 0 <= i < |given| ==> given[i].None?
    decreases |given|
  {
    if given != [] {
      var rest := given[1..];
      assert given == [given[0]] + rest;
      KeptIsOverwrittenIff(Coalesce(given[0], stored), rest);
    }
  }

  /**
   * A nullable column that is equal at the start is equal after a run exactly when the last
   * upsert of its finding passes a value, or none does and nothing was stored.
   */
  lemma ColumnAgreesAfterRunIff(s: Store, p: Store, calls: seq<Call>, key: Key, col: Column)
    requires Related(s, p) && TargetsKnown(p, calls)
    requires CellOf(ViewOf(s, key), col) == CellOf(ViewOf(p, key), col)
    ensures CellOf(ViewOf(SqliteRun(s, calls), key), col) == CellOf(ViewOf(PgRun(p, calls), key), col) <==>
            LosesNothing(CellOf(ViewOf(s, key), col), Given(calls, key, col))
  {
    CellAfterRun(s, p, calls, key, col);
    KeptIsOverwrittenIff(CellOf(ViewOf(s, key), col), Given(calls, key, col));
  }

  // ---- the proposals that took effect --------------------------------------

  function Proposed(c: Call): Status {
    match c
    case UpsertCall(u) => u.status
    case TransitionCall(_, to, _, _, _) => to
  }

  /** A first upsert is taken as it is; after that, whatever is legal when it is proposed. */
  predicate TakesEffect(current: Option<Status>, c: Call) {
    if current.None? then c.UpsertCall? else CanMove(current.value, Proposed(c))
  }

  /** The statuses proposed for a finding that took effect, in order. */
  function Taken(current: Option<Status>, calls: seq<Call>, key: Key): seq<Status>
    decreases |calls|
  {
    if calls == [] then []
    else if calls[0].Subject() == key && TakesEffect(current, calls[0]) then
      [Proposed(calls[0])] + Taken(Some(Proposed(calls[0])), calls[1..], key)
    else Taken(current, calls[1..], key)
  }

  function StatusOf(v: Option<View>): Option<Status> {
    if v.None? then None else ParseStatus(v.value.row.status)
  }

  function Log(v: Option<View>): seq<Entry> {
    if v.None? then [] else v.value.log
  }

  function Logged(log: seq<Entry>): (tos: seq<string>)
    ensures |tos| == |log| && forall i :: 0 <= i < |log| ==> tos[i] == log[i].to
  {
    seq(|log|, i requires 0 <= i < |log| => log[i].to)
  }

  function Values(statuses: seq<Status>): (texts: seq<string>)
    ensures |texts| == |statuses| && forall i :: 0 <= i < |texts| ==> texts[i] == ValueOf(statuses[i])
  {
    seq(|statuses|, i requires 0 <= i < |statuses| => ValueOf(statuses[i]))
  }

  /** Nobody has written a status that is none. */
  predicate Parses(v: Option<View>) {
    v.Some? ==> ParseStatus(v.value.row.status).Some?
  }

  lemma ViewTakes(v: Option<View>, c: Call)
    requires Parses(v)
    ensures var w := SqliteView(v, c);
            if TakesEffect(StatusOf(v), c) then
              w.Some? && w.value.row.status == ValueOf(Proposed(c)) && StatusOf(w) == Some(Proposed(c)) &&
              Logged(Log(w)) == Logged(Log(v)) + [ValueOf(Proposed(c))]
            else
              w.Some? == v.Some? && StatusOf(w) == StatusOf(v) && Log(w) == Log(v) &&
              (v.Some? ==> w.value.row.status == v.value.row.status)
  {
    ParseOfValue(Proposed(c));
    if v.Some? && c.UpsertCall? {
      MovedIff(v.value.row.status, c.u.status);
    }
  }

  /** What a run logs for a finding and the status it leaves, from the view the run starts with. */
  ghost predicate TakenIsLogged(before: Option<View>, taken: seq<Status>, after: Option<View>) {
    Parses(after) && Logged(Log(after)) == Logged(Log(before)) + Values(taken) &&
    StatusOf(after) == if taken == [] then StatusOf(before) else Some(taken[|taken| - 1])
  }

  lemma ValuesCons(first: Status, taken: seq<Status>)
    ensures Values([first] + taken) == [ValueOf(first)] + Values(taken)
  {
  }

  lemma TakenCons(v: Option<View>, w: Option<View>, x: Option<View>, first: Status, taken: seq<Status>)
    requires Logged(Log(w)) == Logged(Log(v)) + [ValueOf(first)] && StatusOf(w) == Some(first)
    requires TakenIsLogged(w, taken, x)
    ensures TakenIsLogged(v, [first] + taken, x)
  {
    ValuesCons(first, taken);
    Regroup(Logged(Log(v)), [ValueOf(first)], Values(taken));
  }

  /**
   * In every run the statuses logged for a finding are exactly the proposals that took effect, in
   * order, behind those of before, and its status is the last of them.
   */
  lemma {:induction false} ProposalsAreLogged(s: Store, calls: seq<Call>, key: Key)
    requires WellFormed(s) && Parses(ViewOf(s, key))
    ensures TakenIsLogged(ViewOf(s, key), Taken(StatusOf(ViewOf(s, key)), calls, key), ViewOf(SqliteRun(s, calls), key))
    decreases |calls|
  {
    var v := ViewOf(s, key);
    if calls == [] {
      assert Values([]) == [] && Logged(Log(v)) + [] == Logged(Log(v));
    } else {
      var c, rest := calls[0], calls[1..];
      SqliteCallView(s, c, key);
      var w := ViewOf(SqliteCall(s, c), key);
      if c.Subject() == key {
        ViewTakes(v, c);
      }
      ProposalsAreLogged(SqliteCall(s, c), rest, key);
      if c.Subject() == key && TakesEffect(StatusOf(v), c) {
        TakenCons(v, w, ViewOf(SqliteRun(s, calls), key), Proposed(c), Taken(Some(Proposed(c)), rest, key));
      }
    }
  }

  /** Nothing else is ever logged: each was proposed by a call of the run for that finding. */
  lemma {:induction false} TakenWereProposed(current: Option<Status>, calls: seq<Call>, key: Key, i: nat)
    requires i < |Taken(current, calls, key)|
    ensures exists k :: 0 <= k < |calls| && calls[k].Subject() == key &&
                        Proposed(calls[k]) == Taken(current, calls, key)[i]
    decreases |calls|
  {
    var rest := calls[1..];
    if calls[0].Subject() == key && TakesEffect(current, calls[0]) {
      if i > 0 {
        TakenWereProposed(Some(Proposed(calls[0])), rest, key, i - 1);
        var k :| 0 <= k < |rest| && rest[k].Subject() == key &&
                 Proposed(rest[k]) == Taken(Some(Proposed(calls[0])), rest, key)[i - 1];
        assert calls[k + 1] == rest[k];
      }
    } else {
      TakenWereProposed(current, rest, key, i);
      var k :| 0 <= k < |rest| && rest[k].Subject() == key && Proposed(rest[k]) == Taken(current, rest, key)[i];
      assert calls[k + 1] == rest[k];
    }
  }

  lemma InStepLogged(v: Option<View>, w: Option<View>)
    requires InStep(v, w)
    ensures StatusOf(v) == StatusOf(w) && Parses(v)
    ensures w.Some? ==> Logged(Log(v)) != [] && Logged(Log(w)) == Logged(Log(v))[1..]
  {
    if w.Some? {
      assert Logged(v.value.log)[1..] == Logged(v.value.log[1..]);
    }
  }

  /** Postgres stores the same status and logs the same, but for the first row. */
  lemma PgProposalsAreLogged(s: Store, p: Store, calls: seq<Call>, key: Key)
    requires Related(s, p) && TargetsKnown(p, calls)
    ensures var taken := Taken(StatusOf(ViewOf(s, key)), calls, key);
            var all := Logged(Log(ViewOf(s, key))) + Values(taken);
            var after := ViewOf(PgRun(p, calls), key);
            StatusOf(after) == (if taken == [] then StatusOf(ViewOf(p, key)) else Some(taken[|taken| - 1])) &&
            (after.Some? ==> all != [] && Logged(Log(after)) == all[1..])
  {
    BackendSimulation(s, p, calls);
    assert InStep(ViewOf(s, key), ViewOf(p, key));
    assert InStep(ViewOf(SqliteRun(s, calls), key), ViewOf(PgRun(p, calls), key));
    InStepLogged(ViewOf(s, key), ViewOf(p, key));
    InStepLogged(ViewOf(SqliteRun(s, calls), key), ViewOf(PgRun(p, calls), key));
    ProposalsAreLogged(s, calls, key);
  }
}
