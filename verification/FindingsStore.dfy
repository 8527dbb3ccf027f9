// src/audit_pipeline/db.py and db_postgres.py: the findings and transitions
// tables and the two backends that write them.  Each `with self._conn()` block
// is one atomic step; a block that raises is rolled back.
module FindingsStore {
  import opened Bytes
  import opened Lifecycle

  datatype Key = Key(targetId: int, cycleId: string, hypothesisId: string)

  /** Columns every upsert overwrites. */
  datatype Core = Core(
    verdict: Option<string>, confidence: Option<string>, severity: string, pocFired: bool, debatePromoted: bool)

  /** Nullable columns. */
  datatype Extras = Extras(
    title: Option<string>, pocPath: Option<string>, engineSha: Option<string>, wrapperSha: Option<string>,
    detailsJson: Option<string>, bugClass: Option<string>)

  datatype Finding = Finding(
    key: Key, core: Core, status: string, extras: Extras, createdAt: string, updatedAt: string)

  /** A row of the transitions table, without its finding_id. */
  datatype Entry = Entry(from: Option<string>, to: string, reason: string, actor: string, ts: string)

  datatype Transition = Transition(findingId: nat, entry: Entry)

  /** `index` is the UNIQUE(target_id, cycle_id, hypothesis_id) index, `targets` the ids in the targets table. */
  datatype Store = Store(
    findings: map<nat, Finding>, index: map<Key, nat>, transitions: seq<Transition>, nextId: nat, targets: set<int>)

  datatype DbError = FindingNotFound | StaleStatus | InvalidTransition | UnknownTarget

  datatype Upsert = Upsert(key: Key, core: Core, status: Status, extras: Extras, now: string)

  const INITIAL_REASON := "initial classification from hunt cycle"
  const ADVANCE_REASON := "advance via upsert_finding (state-machine validated)"

  function Coalesce(given: Option<string>, stored: Option<string>): Option<string> {
    if given.Some? then given else stored
  }

  function CoalesceAll(n: Extras, o: Extras): Extras {
    Extras(Coalesce(n.title, o.title), Coalesce(n.pocPath, o.pocPath), Coalesce(n.engineSha, o.engineSha),
           Coalesce(n.wrapperSha, o.wrapperSha), Coalesce(n.detailsJson, o.detailsJson),
           Coalesce(n.bugClass, o.bugClass))
  }

  /** The status an update leaves: the proposed one when that is a legal change, else the current one. */
  function Advance(current: string, proposed: Status): string {
    match ParseStatus(current)
    case None => current
    case Some(c) => if CanMove(c, proposed) then ValueOf(proposed) else current
  }

  // ---- both backends as functions ------------------------------------------

  function AppendEntry(s: Store, id: nat, e: Entry): Store {
    s.(transitions := s.transitions + [Transition(id, e)])
  }

  function SetFinding(s: Store, id: nat, f: Finding): Store {
    s.(findings := s.findings[id := f])
  }

  function NewFinding(u: Upsert): Finding {
    Finding(u.key, u.core, ValueOf(u.status), u.extras, u.now, u.now)
  }

  function Insert(s: Store, u: Upsert): Store {
    s.(findings := s.findings[s.nextId := NewFinding(u)], index := s.index[u.key := s.nextId], nextId := s.nextId + 1)
  }

  /** Update of an existing row, with the row logged when the status moved. */
  function Update(s: Store, id: nat, u: Upsert, extras: Extras): Store
    requires id in s.findings
  {
    var f := s.findings[id];
    var status := Advance(f.status, u.status);
    var s' := SetFinding(s, id, Finding(f.key, u.core, status, extras, f.createdAt, u.now));
    if status == f.status then s'
    else AppendEntry(s', id, Entry(Some(f.status), status, ADVANCE_REASON, "system", u.now))
  }

  /** FindingsDB.upsert_finding never raises. */
  function SqliteUpsert(s: Store, u: Upsert): Store
    requires u.key in s.index ==> s.index[u.key] in s.findings
  {
    if u.key in s.index then
      var id := s.index[u.key];
      Update(s, id, u, CoalesceAll(u.extras, s.findings[id].extras))
    else
      AppendEntry(Insert(s, u), s.nextId, Entry(None, ValueOf(u.status), INITIAL_REASON, "system", u.now))
  }

  /** What stops PostgresFindingsDB.upsert_finding: an unparseable stored status, or an unknown target. */
  function PgRefusal(s: Store, u: Upsert): Option<DbError>
    requires u.key in s.index ==> s.index[u.key] in s.findings
  {
    if u.key in s.index then
      if ParseStatus(s.findings[s.index[u.key]].status).None? then Some(StaleStatus) else None
    else if u.key.targetId !in s.targets then Some(UnknownTarget)
    else None
  }

  function SkipId(s: Store): Store {
    s.(nextId := s.nextId + 1)
  }

  /** BIGSERIAL hands out an id for every INSERT, also one that turns into an update or fails. */
  function PgUpsert(s: Store, u: Upsert): Store
    requires u.key in s.index ==> s.index[u.key] in s.findings
  {
    match PgRefusal(s, u)
    case Some(StaleStatus) => s
    case Some(_) => SkipId(s)
    case None =>
      if u.key in s.index then SkipId(Update(s, s.index[u.key], u, u.extras))
      else Insert(s, u)
  }

  /** transition_finding: what stops it, alike in both backends. */
  function TransitionRefusal(s: Store, id: nat, to: Status): Option<DbError> {
    if id !in s.findings then Some(FindingNotFound)
    else
      match ParseStatus(s.findings[id].status)
      case None => Some(StaleStatus)
      case Some(from) => if CanMove(from, to) then None else Some(InvalidTransition)
  }

  function Transitioned(s: Store, id: nat, to: Status, reason: string, actor: string, now: string): Store {
    if TransitionRefusal(s, id, to).Some? then s
    else
      var f := s.findings[id];
      AppendEntry(SetFinding(s, id, f.(status := ValueOf(to), updatedAt := now)), id,
                  Entry(Some(f.status), ValueOf(to), reason, actor, now))
  }

  // ---- the two classes -----------------------------------------------------

  class FindingsDB {
    var findings: map<nat, Finding>
    var index: map<Key, nat>
    var transitions: seq<Transition>
    var nextId: nat
    var targets: set<int>

    ghost function Contents(): Store
      reads this
    {
      Store(findings, index, transitions, nextId, targets)
    }

    ghost predicate Valid()
      reads this
    {
      WellFormed(Contents())
    }

    constructor (targetIds: set<int>)
      ensures Valid() && Contents() == EmptyStore(targetIds)
    {
      findings, index, transitions, nextId, targets := map[], map[], [], 1, targetIds;
    }

    method UpsertFinding(u: Upsert) returns (id: nat)
      requires Valid()
      modifies this
      ensures Valid() && Contents() == SqliteUpsert(old(Contents()), u)
      ensures u.key in index && id == index[u.key]
    {
      UpsertKeepsWellFormed(Contents(), u);
      if u.key in index {
        id := index[u.key];
        var row := findings[id];
        var allowStatusChange := false;
        if row.status != ValueOf(u.status) {
          match ParseStatus(row.status) {
            case None =>
            case Some(current) => allowStatusChange := CanMove(current, u.status);
          }
        }
        MovedIff(row.status, u.status);
        var extras := CoalesceAll(u.extras, row.extras);
        if allowStatusChange {
          findings :=
            findings[id := row.(core := u.core, status := ValueOf(u.status), extras := extras, updatedAt := u.now)];
          transitions := transitions +
            [Transition(id, Entry(Some(row.status), ValueOf(u.status), ADVANCE_REASON, "system", u.now))];
        } else {
          findings := findings[id := row.(core := u.core, extras := extras, updatedAt := u.now)];
        }
      } else {
        id := nextId;
        nextId := nextId + 1;
        findings := findings[id := NewFinding(u)];
        index := index[u.key := id];
        transitions := transitions + [Transition(id, Entry(None, ValueOf(u.status), INITIAL_REASON, "system", u.now))];
      }
    }

    method TransitionFinding(id: nat, to: Status, reason: string, actor: string, now: string)
      returns (error: Option<DbError>)
      requires Valid()
      modifies this
      ensures Valid()
      ensures error == TransitionRefusal(old(Contents()), id, to)
      ensures Contents() == Transitioned(old(Contents()), id, to, reason, actor, now)
      ensures error.Some? ==> Contents() == old(Contents())
    {
      TransitionKeepsWellFormed(Contents(), id, to, reason, actor, now);
      if id !in findings {
        return Some(FindingNotFound);
      }
      var parsed := ParseStatus(findings[id].status);
      if parsed.None? {
        return Some(StaleStatus);
      }
      if !CanMove(parsed.value, to) {
        return Some(InvalidTransition);
      }
      var from := findings[id].status;
      findings := findings[id := findings[id].(status := ValueOf(to), updatedAt := now)];
      transitions := transitions + [Transition(id, Entry(Some(from), ValueOf(to), reason, actor, now))];
      error := None;
    }
  }

  class PostgresFindingsDB {
    var findings: map<nat, Finding>
    var index: map<Key, nat>
    var transitions: seq<Transition>
    var nextId: nat
    var targets: set<int>

    ghost function Contents(): Store
      reads this
    {
      Store(findings, index, transitions, nextId, targets)
    }

    ghost predicate Valid()
      reads this
    {
      WellFormed(Contents())
    }

    constructor (targetIds: set<int>)
      ensures Valid() && Contents() == EmptyStore(targetIds)
    {
      findings, index, transitions, nextId, targets := map[], map[], [], 1, targetIds;
    }

    method UpsertFinding(u: Upsert) returns (result: Result<nat, DbError>)
      requires Valid()
      modifies this
      ensures Valid() && Contents() == PgUpsert(old(Contents()), u)
      ensures match PgRefusal(old(Contents()), u)
              case Some(e) => result == Err(e)
              case None => u.key in index && result == Ok(index[u.key])
    {
      UpsertKeepsWellFormed(Contents(), u);
      var effective := u.status;
      if u.key in index {
        var current := findings[index[u.key]].status;
        if current != ValueOf(u.status) {
          match ParseStatus(current) {
            case None => return Err(StaleStatus);
            case Some(c) =>
              if !CanMove(c, u.status) {
                effective := c;
              }
          }
        } else {
          ParseOfValue(u.status);
        }
        MovedIff(current, u.status);
      }
      var id := nextId;
      nextId := nextId + 1;
      if u.key in index {
        id := index[u.key];
        var row := findings[id];
        findings :=
          findings[id := row.(core := u.core, status := ValueOf(effective), extras := u.extras, updatedAt := u.now)];
        if ValueOf(effective) != row.status {
          transitions := transitions +
            [Transition(id, Entry(Some(row.status), ValueOf(effective), ADVANCE_REASON, "system", u.now))];
        }
      } else {
        if u.key.targetId !in targets {
          return Err(UnknownTarget);
        }
        findings := findings[id := NewFinding(u)];
        index := index[u.key := id];
      }
      result := Ok(id);
    }

    method TransitionFinding(id: nat, to: Status, reason: string, actor: string, now: string)
      returns (error: Option<DbError>)
      requires Valid()
      modifies this
      ensures Valid()
      ensures error == TransitionRefusal(old(Contents()), id, to)
      ensures Contents() == Transitioned(old(Contents()), id, to, reason, actor, now)
      ensures error.Some? ==> Contents() == old(Contents())
    {
      TransitionKeepsWellFormed(Contents(), id, to, reason, actor, now);
      if id !in findings {
        return Some(FindingNotFound);
      }
      var parsed := ParseStatus(findings[id].status);
      if parsed.None? {
        return Some(StaleStatus);
      }
      if !CanMove(parsed.value, to) {
        return Some(InvalidTransition);
      }
      var from := findings[id].status;
      findings := findings[id := findings[id].(status := ValueOf(to), updatedAt := now)];
      transitions := transitions + [Transition(id, Entry(Some(from), ValueOf(to), reason, actor, now))];
      error := None;
    }
  }

  // ---- what every call keeps -----------------------------------------------

  function EmptyStore(targets: set<int>): (s: Store)
    ensures WellFormed(s)
  {
    Store(map[], map[], [], 1, targets)
  }

  /** The index and the table name the same rows, ids are below nextId, and the log refers to rows. */
  ghost predicate WellFormed(s: Store) {
    (forall k :: k in s.index ==> s.index[k] in s.findings && s.findings[s.index[k]].key == k) &&
    (forall id :: id in s.findings ==>
       id < s.nextId && s.findings[id].key in s.index && s.index[s.findings[id].key] == id) &&
    (forall i :: 0 <= i < |s.transitions| ==> s.transitions[i].findingId in s.findings)
  }

  /** The status moves exactly when the change is legal. */
  lemma MovedIff(current: string, proposed: Status)
    ensures Advance(current, proposed) != current <==>
            ParseStatus(current).Some? && CanMove(ParseStatus(current).value, proposed)
    ensures current == ValueOf(proposed) ==> Advance(current, proposed) == current
  {
    ParseOfValue(proposed);
    if ParseStatus(current).Some? {
      ChangesMoveForward(ParseStatus(current).value, proposed);
    }
  }

  lemma InsertKeepsWellFormed(s: Store, u: Upsert)
    requires WellFormed(s) && u.key !in s.index
    ensures WellFormed(Insert(s, u))
  {
  }

  lemma UpdateKeepsWellFormed(s: Store, id: nat, u: Upsert, extras: Extras)
    requires WellFormed(s) && id in s.findings
    ensures WellFormed(Update(s, id, u, extras))
  {
  }

  lemma UpsertKeepsWellFormed(s: Store, u: Upsert)
    requires WellFormed(s)
    ensures WellFormed(SqliteUpsert(s, u)) && WellFormed(PgUpsert(s, u))
  {
    if u.key in s.index {
      var id := s.index[u.key];
      UpdateKeepsWellFormed(s, id, u, CoalesceAll(u.extras, s.findings[id].extras));
      UpdateKeepsWellFormed(s, id, u, u.extras);
    } else {
      InsertKeepsWellFormed(s, u);
    }
  }

  lemma TransitionKeepsWellFormed(s: Store, id: nat, to: Status, reason: string, actor: string, now: string)
    requires WellFormed(s)
    ensures WellFormed(Transitioned(s, id, to, reason, actor, now))
  {
  }

  // ---- the stores a call leaves, column by column --------------------------

  /** A stored column is kept where no value is given. */
  predicate KeptWhereNull(given: Extras, stored: Extras, after: Extras) {
    after.title == (if given.title.Some? then given.title else stored.title) &&
    after.pocPath == (if given.pocPath.Some? then given.pocPath else stored.pocPath) &&
    after.engineSha == (if given.engineSha.Some? then given.engineSha else stored.engineSha) &&
    after.wrapperSha == (if given.wrapperSha.Some? then given.wrapperSha else stored.wrapperSha) &&
    after.detailsJson == (if given.detailsJson.Some? then given.detailsJson else stored.detailsJson) &&
    after.bugClass == (if given.bugClass.Some? then given.bugClass else stored.bugClass)
  }

  /** A stored status that parses may legally become the proposed one. */
  predicate MayBecome(stored: string, proposed: Status) {
    ParseStatus(stored).Some? && CanMove(ParseStatus(stored).value, proposed)
  }

  /**
   * What an update leaves: the proposed status where it is legal, and then logged; otherwise the
   * old one and nothing logged; every other column as given.
   */
  lemma UpdateSpelled(s: Store, id: nat, u: Upsert, extras: Extras)
    requires id in s.findings
    ensures var f, moves := s.findings[id], MayBecome(s.findings[id].status, u.status);
            Update(s, id, u, extras) ==
            s.(findings := s.findings[id := Finding(f.key, u.core, if moves then ValueOf(u.status) else f.status,
                                                    extras, f.createdAt, u.now)],
               transitions := s.transitions +
                 if moves then
                   [Transition(id, Entry(Some(f.status), ValueOf(u.status),
                                         "advance via upsert_finding (state-machine validated)", "system", u.now))]
                 else [])
  {
    var f := s.findings[id];
    MovedIff(f.status, u.status);
    assert s.transitions + [] == s.transitions;
  }

  /** SQLite: known findings are updated, nullable columns kept; new ones inserted and logged. */
  lemma SqliteUpsertSpelled(s: Store, u: Upsert) returns (extras: Extras)
    requires WellFormed(s)
    ensures u.key in s.index ==>
              KeptWhereNull(u.extras, s.findings[s.index[u.key]].extras, extras) &&
              SqliteUpsert(s, u) == Update(s, s.index[u.key], u, extras)
    ensures u.key !in s.index ==>
              SqliteUpsert(s, u) ==
              Store(s.findings[s.nextId := Finding(u.key, u.core, ValueOf(u.status), u.extras, u.now, u.now)],
                    s.index[u.key := s.nextId],
                    s.transitions +
                      [Transition(s.nextId, Entry(None, ValueOf(u.status),
                                                  "initial classification from hunt cycle", "system", u.now))],
                    s.nextId + 1, s.targets)
  {
    extras := if u.key in s.index then CoalesceAll(u.extras, s.findings[s.index[u.key]].extras) else u.extras;
  }

  /**
   * Postgres: an id is used up by every call that reaches the INSERT, nullable columns are
   * overwritten, and there is no first log row.
   */
  lemma PgUpsertSpelled(s: Store, u: Upsert)
    requires WellFormed(s)
    ensures u.key in s.index && ParseStatus(s.findings[s.index[u.key]].status).None? ==>
              PgUpsert(s, u) == s && PgRefusal(s, u) == Some(StaleStatus)
    ensures u.key in s.index && ParseStatus(s.findings[s.index[u.key]].status).Some? ==>
              PgRefusal(s, u) == None &&
              var t := Update(s, s.index[u.key], u, u.extras);
              PgUpsert(s, u) == Store(t.findings, t.index, t.transitions, s.nextId + 1, t.targets)
    ensures u.key !in s.index && u.key.targetId !in s.targets ==>
              PgRefusal(s, u) == Some(UnknownTarget) &&
              PgUpsert(s, u) == Store(s.findings, s.index, s.transitions, s.nextId + 1, s.targets)
    ensures u.key !in s.index && u.key.targetId in s.targets ==>
              PgRefusal(s, u) == None &&
              PgUpsert(s, u) ==
              Store(s.findings[s.nextId := Finding(u.key, u.core, ValueOf(u.status), u.extras, u.now, u.now)],
                    s.index[u.key := s.nextId], s.transitions, s.nextId + 1, s.targets)
  {
    if u.key in s.index {
      UpdateSpelled(s, s.index[u.key], u, u.extras);
    }
  }

  /** A transition: the new status and time, and the row logged, or nothing at all. */
  lemma TransitionSpelled(s: Store, id: nat, to: Status, reason: string, actor: string, now: string)
    ensures TransitionRefusal(s, id, to).None? <==> id in s.findings && MayBecome(s.findings[id].status, to)
    ensures Transitioned(s, id, to, reason, actor, now) ==
            if !(id in s.findings && MayBecome(s.findings[id].status, to)) then s
            else
              var f := s.findings[id];
              s.(findings := s.findings[id := Finding(f.key, f.core, ValueOf(to), f.extras, f.createdAt, now)],
                 transitions := s.transitions +
                   [Transition(id, Entry(Some(f.status), ValueOf(to), reason, actor, now))])
  {
  }
}
