// src/audit_pipeline/db.py, _run_one_hook: who may run a hook for a finding.
//
// Many invocations share the hook_runs table.  A SELECT is one step and the
// DELETE and INSERT that follow it, one write transaction, are another.  Time is
// in microseconds; started_at is cut to whole seconds.
module HookClaim {
  import opened Bytes

  const SECOND := 1_000_000
  const STALE_THRESHOLD := 3600 * SECOND

  datatype HookKey = HookKey(findingId: int, hookName: string)

  datatype Outcome = Succeeded | Failed

  /** A row of hook_runs; the outcome is NULL while the hook runs, or for good if it crashed. */
  datatype HookRow = HookRow(startedAt: nat, outcome: Option<Outcome>)

  datatype Phase =
    | Begun(started: nat)
    | Cleared(started: nat, saw: Option<HookRow>)  // the SELECT did not refuse
    | Running(started: nat)
    | Skipped
    | Crashed
    | Ended

  datatype Invocation = Invocation(key: HookKey, phase: Phase)

  datatype State = State(clock: nat, table: map<HookKey, HookRow>, runs: map<nat, Invocation>)

  datatype Event =
    | Tick(elapsed: nat)
    | Start(i: nat, key: HookKey)
    | Select(i: nat)
    | Write(i: nat)
    | Finish(i: nat, ok: bool)
    | Crash(i: nat)

  function RowOf(table: map<HookKey, HookRow>, key: HookKey): Option<HookRow> {
    if key in table then Some(table[key]) else None
  }

  function Lookup(s: State, key: HookKey): Option<HookRow> {
    RowOf(s.table, key)
  }

  /** The instant started_at names. */
  function Instant(startedAt: nat): nat {
    startedAt * SECOND
  }

  /** An 'ok' row blocks for ever; an unfinished one for less than an hour. */
  predicate Refuses(row: Option<HookRow>, now: nat) {
    row.Some? &&
    match row.value.outcome
    case Some(outcome) => outcome == Succeeded
    case None => now - Instant(row.value.startedAt) < STALE_THRESHOLD
  }

  /** The table after the outcome was recorded: an UPDATE, so a missing row stays missing. */
  function Recorded(table: map<HookKey, HookRow>, key: HookKey, ok: bool): map<HookKey, HookRow> {
    if key in table then table[key := table[key].(outcome := Some(if ok then Succeeded else Failed))] else table
  }

  /** The table after a claim that nobody interrupts. */
  function Claimed(table: map<HookKey, HookRow>, key: HookKey, started: nat, now: nat): map<HookKey, HookRow> {
    if Refuses(RowOf(table, key), now) then table else table[key := HookRow(started, None)]
  }

  function SetPhase(s: State, i: nat, p: Phase): State
    requires i in s.runs
  {
    s.(runs := s.runs[i := s.runs[i].(phase := p)])
  }

  /** One step of one invocation, or of the clock; None when the step is not possible. */
  function Step(s: State, e: Event): Option<State> {
    match e
    case Tick(elapsed) => Some(s.(clock := s.clock + elapsed))
    case Start(i, key) =>
      if i in s.runs then None
      else Some(s.(runs := s.runs[i := Invocation(key, Begun(s.clock / SECOND))]))
    case Select(i) =>
      if i !in s.runs || !s.runs[i].phase.Begun? then None
      else
        var row := Lookup(s, s.runs[i].key);
        Some(SetPhase(s, i, if Refuses(row, s.clock) then Skipped else Cleared(s.runs[i].phase.started, row)))
    case Write(i) =>
      if i !in s.runs || !s.runs[i].phase.Cleared? then None
      else
        var key, started := s.runs[i].key, s.runs[i].phase.started;
        if s.runs[i].phase.saw.None? && key in s.table then Some(SetPhase(s, i, Skipped))  // UNIQUE violation
        else Some(SetPhase(s, i, Running(started)).(table := s.table[key := HookRow(started, None)]))
    case Finish(i, ok) =>
      if i !in s.runs || !s.runs[i].phase.Running? then None
      else
        Some(SetPhase(s, i, Ended).(table := Recorded(s.table, s.runs[i].key, ok)))
    case Crash(i) =>
      if i !in s.runs || s.runs[i].phase.Skipped? || s.runs[i].phase.Ended? then None
      else Some(SetPhase(s, i, Crashed))
  }

  function Exec(s: State, es: seq<Event>): Option<State>
    decreases |es|
  {
    if es == [] then Some(s)
    else
      match Step(s, es[0])
      case None => None
      case Some(t) => Exec(t, es[1..])
  }

  predicate Runs(s: State, i: nat, key: HookKey) {
    i in s.runs && s.runs[i].key == key && s.runs[i].phase.Running?
  }

  /** No two invocations run the target of one hook of one finding at once. */
  ghost predicate Exclusive(s: State) {
    forall i, j, key :: Runs(s, i, key) && Runs(s, j, key) ==> i == j
  }

  /** Every run is still within the hour it was started in. */
  predicate Timely(s: State) {
    forall i :: i in s.runs && s.runs[i].phase.Running? ==> s.clock < Instant(s.runs[i].phase.started) + STALE_THRESHOLD
  }

  /** If the claimant saw a row, the row it is about to delete is the one it saw. */
  predicate Undisturbed(s: State, e: Event) {
    e.Write? && e.i in s.runs && s.runs[e.i].phase.Cleared? && s.runs[e.i].phase.saw.Some? ==>
      Lookup(s, s.runs[e.i].key) == s.runs[e.i].phase.saw
  }

  predicate GoodStep(s: State, e: Event) {
    Step(s, e).Some? && Undisturbed(s, e) && Timely(Step(s, e).value)
  }

  /** A run of undisturbed claims in which every hook ends or crashes within its hour. */
  predicate GoodRun(s: State, es: seq<Event>)
    decreases |es|
  {
    es == [] || (GoodStep(s, es[0]) && GoodRun(Step(s, es[0]).value, es[1..]))
  }

  // ---- the lease -----------------------------------------------------------

  /** Whoever runs owns the row of its key; what a claimant saw was retryable. */
  ghost predicate Lease(s: State) {
    Timely(s) && Exclusive(s) &&
    (forall i, key :: Runs(s, i, key) ==> Lookup(s, key) == Some(HookRow(s.runs[i].phase.started, None))) &&
    (forall i :: i in s.runs && s.runs[i].phase.Cleared? ==> !Refuses(s.runs[i].phase.saw, s.clock))
  }

  lemma StillRetryable(row: Option<HookRow>, now: nat, later: nat)
    requires !Refuses(row, now) && now <= later
    ensures !Refuses(row, later)
  {
  }

  /** A row that does not refuse has nobody running on it. */
  lemma RetryableIsFree(s: State, key: HookKey, i: nat)
    requires Lease(s) && !Refuses(Lookup(s, key), s.clock)
    ensures !Runs(s, i, key)
  {
  }

  lemma WriteKeepsLease(s: State, i: nat)
    requires Lease(s) && GoodStep(s, Write(i))
    ensures Lease(Step(s, Write(i)).value)
  {
    var t := Step(s, Write(i)).value;
    var key := s.runs[i].key;
    forall j, k | Runs(t, j, k)
      ensures Lookup(t, k) == Some(HookRow(t.runs[j].phase.started, None))
      ensures j != i ==> Runs(s, j, k)
      ensures t.runs[i].phase.Running? && k == key ==> j == i
    {
      if j != i {
        assert Runs(s, j, k);
        if t.runs[i].phase.Running? {
          RetryableIsFree(s, key, j);
        }
      }
    }
  }

  lemma StepKeepsLease(s: State, e: Event)
    requires Lease(s) && GoodStep(s, e)
    ensures Lease(Step(s, e).value)
  {
    var t := Step(s, e).value;
    if e.Write? {
      WriteKeepsLease(s, e.i);
    } else {
      forall j, k | Runs(t, j, k)
        ensures Runs(s, j, k) && Lookup(t, k) == Some(HookRow(t.runs[j].phase.started, None))
      {
        assert Runs(s, j, k);
        if e.Finish? {
          assert Runs(s, e.i, s.runs[e.i].key);
        }
      }
      forall j | j in t.runs && t.runs[j].phase.Cleared?
        ensures !Refuses(t.runs[j].phase.saw, t.clock)
      {
        if j in s.runs && s.runs[j].phase.Cleared? {
          StillRetryable(s.runs[j].phase.saw, s.clock, t.clock);
        }
      }
    }
  }

  /** Mutual exclusion, in every state of every good run. */
  lemma {:induction false} HookLease(s: State, es: seq<Event>)
    requires Lease(s) && GoodRun(s, es)
    ensures Exec(s, es).Some? && Lease(Exec(s, es).value) && Exclusive(Exec(s, es).value)
    decreases |es|
  {
    if es != [] {
      StepKeepsLease(s, es[0]);
      HookLease(Step(s, es[0]).value, es[1..]);
    }
  }

  lemma NobodyRunning(clock: nat, table: map<HookKey, HookRow>)
    ensures Lease(State(clock, table, map[]))
  {
  }

  predicate DoneOk(s: State, key: HookKey) {
    key in s.table && s.table[key].outcome == Some(Succeeded)
  }

  /** A success is permanent, and nobody runs the hook again. */
  lemma {:induction false} OkIsForever(s: State, es: seq<Event>, key: HookKey)
    requires Lease(s) && GoodRun(s, es) && DoneOk(s, key)
    ensures Exec(s, es).Some? && DoneOk(Exec(s, es).value, key)
    ensures Exec(s, es).value.table[key] == s.table[key]
    ensures forall i :: !Runs(Exec(s, es).value, i, key)
    decreases |es|
  {
    forall i
      ensures !Runs(s, i, key)
    {
    }
    if es != [] {
      var e := es[0];
      var t := Step(s, e).value;
      StepKeepsLease(s, e);
      assert t.table[key] == s.table[key] by {
        if e.Write? && s.runs[e.i].key == key {
          assert !Refuses(s.runs[e.i].phase.saw, s.clock);
        }
        if e.Finish? {
          assert Runs(s, e.i, s.runs[e.i].key);
        }
      }
      OkIsForever(t, es[1..], key);
    }
  }

  /**
   * Statement by statement it is not: exactly two steps take an `ok` row away, the write of a
   * claimant that had seen a row, and the error of a second run.
   */
  lemma OkLostIff(s: State, e: Event, key: HookKey)
    requires DoneOk(s, key) && Step(s, e).Some?
    ensures !DoneOk(Step(s, e).value, key) <==>
            (e.Write? && s.runs[e.i].key == key && s.runs[e.i].phase.saw.Some?) ||
            (e.Finish? && s.runs[e.i].key == key && !e.ok)
  {
  }

  /** An invocation that reaches its INSERT without anyone in between. */
  function Attempt(i: nat, key: HookKey): seq<Event> {
    [Start(i, key), Select(i), Write(i)]
  }

  lemma ThreeSteps(s: State, a: Event, b: Event, c: Event)
    requires GoodStep(s, a) && GoodStep(Step(s, a).value, b)
    requires GoodStep(Step(Step(s, a).value, b).value, c)
    ensures GoodRun(s, [a, b, c])
    ensures Exec(s, [a, b, c]) == Step(Step(Step(s, a).value, b).value, c)
  {
    var s1 := Step(s, a).value;
    var s2 := Step(s1, b).value;
    var s3 := Step(s2, c).value;
    assert [a, b, c][1..] == [b, c] && [b, c][1..] == [c] && [c][1..] == [];
    assert GoodRun(s3, []) && Exec(s3, []) == Some(s3);
    assert GoodRun(s2, [c]) && Exec(s2, [c]) == Some(s3);
    assert GoodRun(s1, [b, c]) && Exec(s1, [b, c]) == Some(s3);
  }

  /** An attempt on a row that does not refuse is undisturbed, timely and granted. */
  lemma AttemptIsGranted(s: State, key: HookKey, i: nat)
    requires Timely(s) && i !in s.runs && !Refuses(Lookup(s, key), s.clock)
    ensures GoodRun(s, Attempt(i, key)) && Exec(s, Attempt(i, key)).Some?
    ensures Runs(Exec(s, Attempt(i, key)).value, i, key)
    ensures Exec(s, Attempt(i, key)).value.table == s.table[key := HookRow(s.clock / SECOND, None)]
  {
    var s1 := Step(s, Start(i, key)).value;
    assert s1.runs[i].phase == Begun(s.clock / SECOND);
    var s2 := Step(s1, Select(i)).value;
    assert s2.runs[i].phase == Cleared(s.clock / SECOND, Lookup(s, key));
    var s3 := Step(s2, Write(i)).value;
    assert s3.runs[i].phase == Running(s.clock / SECOND);
    ThreeSteps(s, Start(i, key), Select(i), Write(i));
  }

  /** One hour after a claim that never finished, nobody runs it and the next attempt takes it over. */
  lemma CrashedClaimIsRetaken(s: State, key: HookKey, i: nat)
    requires Lease(s) && key in s.table && s.table[key].outcome == None
    requires Instant(s.table[key].startedAt) + STALE_THRESHOLD <= s.clock
    requires i !in s.runs
    ensures forall j :: !Runs(s, j, key)
    ensures GoodRun(s, Attempt(i, key)) && Exec(s, Attempt(i, key)).Some?
    ensures Runs(Exec(s, Attempt(i, key)).value, i, key)
  {
    forall j
      ensures !Runs(s, j, key)
    {
      RetryableIsFree(s, key, j);
    }
    AttemptIsGranted(s, key, i);
  }

  /** The claim is open where there is no row, an error, or an unfinished row of an hour or more. */
  lemma ClaimIsOpenIff(s: State, key: HookKey)
    ensures !Refuses(Lookup(s, key), s.clock) <==>
            key !in s.table || s.table[key].outcome == Some(Failed) ||
            (s.table[key].outcome == None && s.clock - 1_000_000 * s.table[key].startedAt >= 3_600_000_000)
  {
  }

  /** A failed hook may be run again: the next undisturbed attempt runs and owns the new row. */
  lemma FailureIsRetried(s: State, key: HookKey, j: nat)
    requires Timely(s) && j !in s.runs && key in s.table && s.table[key].outcome == Some(Failed)
    ensures GoodRun(s, Attempt(j, key)) && Exec(s, Attempt(j, key)).Some?
    ensures var t := Exec(s, Attempt(j, key)).value;
            Runs(t, j, key) && t.table == s.table[key := HookRow(s.clock / 1_000_000, None)]
  {
    ClaimIsOpenIff(s, key);
    AttemptIsGranted(s, key, j);
  }

  /** In particular right after the error was recorded. */
  lemma ErrorThenRetry(s: State, i: nat, j: nat)
    requires Lease(s) && i in s.runs && s.runs[i].phase.Running? && j !in s.runs
    ensures Step(s, Finish(i, false)).Some?
    ensures var t, key := Step(s, Finish(i, false)).value, s.runs[i].key;
            GoodRun(t, Attempt(j, key)) && Exec(t, Attempt(j, key)).Some? &&
            Runs(Exec(t, Attempt(j, key)).value, j, key) &&
            Lookup(Exec(t, Attempt(j, key)).value, key) == Some(HookRow(s.clock / 1_000_000, None))
  {
    var t, key := Step(s, Finish(i, false)).value, s.runs[i].key;
    assert Runs(s, i, key);
    FailureIsRetried(t, key, j);
  }

  lemma TwoOutcomes(outcome: Option<Outcome>)
    ensures outcome == None || outcome == Some(Succeeded) || outcome == Some(Failed)
  {
    assert outcome.Some? ==> outcome.value.Succeeded? || outcome.value.Failed?;
  }

  /** The hook_runs table, as one invocation that is not interleaved changes it. */
  class HookRuns {
    var rows: map<HookKey, HookRow>

    /** The claim: SELECT, refuse or DELETE, INSERT.  `started` was taken before `now`. */
    method Claim(key: HookKey, started: nat, now: nat) returns (granted: bool)
      modifies this
      ensures granted <==>
              key !in old(rows) || old(rows)[key].outcome == Some(Failed) ||
              (old(rows)[key].outcome == None && now - 1_000_000 * old(rows)[key].startedAt >= 3_600_000_000)
      ensures rows == if granted then old(rows)[key := HookRow(started, None)] else old(rows)
      ensures rows == Claimed(old(rows), key, started, now)
    {
      if key in rows {
        TwoOutcomes(rows[key].outcome);
      }
      if key in rows && rows[key].outcome == Some(Succeeded) {
        return false;
      }
      if key in rows {
        if rows[key].outcome == None {
          var age := now - Instant(rows[key].startedAt);
          if age < STALE_THRESHOLD {
            return false;
          }
        }
        rows := rows - {key};
      }
      rows := rows[key := HookRow(started, None)];
      granted := true;
    }

    /** The UPDATE after the target returned or raised; it touches no other key, and never adds a row. */
    method Record(key: HookKey, ok: bool)
      modifies this
      ensures rows == Recorded(old(rows), key, ok)
      ensures rows.Keys == old(rows).Keys
      ensures forall k :: k in rows && k != key ==> rows[k] == old(rows)[k]
      ensures key in rows ==> rows[key] == HookRow(old(rows)[key].startedAt, Some(if ok then Succeeded else Failed))
    {
      if key in rows {
        rows := rows[key := rows[key].(outcome := Some(if ok then Succeeded else Failed))];
      }
    }
  }

  /** The statements of one claim: a refused one ends with its SELECT. */
  function ClaimSteps(s: State, i: nat): seq<Event>
    requires i in s.runs
  {
    if Refuses(Lookup(s, s.runs[i].key), s.clock) then [Select(i)] else [Select(i), Write(i)]
  }

  /** `Claim` is Select and Write back to back: the same answer and the same table. */
  lemma ClaimIsSelectAndWrite(s: State, i: nat)
    requires i in s.runs && s.runs[i].phase.Begun?
    ensures var key, started := s.runs[i].key, s.runs[i].phase.started;
            var t := Exec(s, ClaimSteps(s, i));
            t.Some? && t.value.clock == s.clock && t.value.table == Claimed(s.table, key, started, s.clock) &&
            t.value.runs ==
              s.runs[i := Invocation(key, if Refuses(Lookup(s, key), s.clock) then Skipped else Running(started))]
  {
    var key, started := s.runs[i].key, s.runs[i].phase.started;
    var s1 := Step(s, Select(i)).value;
    assert forall t: State :: Exec(t, []) == Some(t);
    if !Refuses(Lookup(s, key), s.clock) {
      assert Lookup(s1, key) == Lookup(s, key) && s1.runs[i] == Invocation(key, Cleared(started, Lookup(s, key)));
      var s2 := Step(s1, Write(i)).value;
      assert [Select(i), Write(i)][1..] == [Write(i)] && [Write(i)][1..] == [];
      assert Exec(s1, [Write(i)]) == Some(s2);
      assert s1.runs[i := s2.runs[i]] == s.runs[i := s2.runs[i]];
    } else {
      assert [Select(i)][1..] == [];
    }
  }

  /** An invocation alone, claim and record: the two methods one after the other. */
  lemma InvocationIsClaimAndRecord(s: State, i: nat, ok: bool)
    requires i in s.runs && s.runs[i].phase.Begun? && !Refuses(Lookup(s, s.runs[i].key), s.clock)
    ensures var key, started := s.runs[i].key, s.runs[i].phase.started;
            var t := Exec(s, ClaimSteps(s, i) + [Finish(i, ok)]);
            t.Some? && t.value.table == Recorded(Claimed(s.table, key, started, s.clock), key, ok) &&
            t.value.runs == s.runs[i := Invocation(key, Ended)]
  {
    ClaimIsSelectAndWrite(s, i);
    var s1 := Exec(s, ClaimSteps(s, i)).value;
    ExecAppend(s, ClaimSteps(s, i), [Finish(i, ok)]);
    assert [Finish(i, ok)][1..] == [];
    var s2 := Step(s1, Finish(i, ok)).value;
    assert Exec(s2, []) == Some(s2) && Exec(s1, [Finish(i, ok)]) == Some(s2);
    assert s1.runs[i := s2.runs[i]] == s.runs[i := s2.runs[i]];
  }

  // ---- one statement at a time ---------------------------------------------

  /** Writes on a key, and those among them that were granted. */
  function Writes(s: State, es: seq<Event>, key: HookKey): nat
    decreases |es|
  {
    if es == [] || Step(s, es[0]).None? then 0
    else
      var e, t := es[0], Step(s, es[0]).value;
      (if e.Write? && s.runs[e.i].key == key then 1 else 0) + Writes(t, es[1..], key)
  }

  function Granted(s: State, es: seq<Event>, key: HookKey): nat
    decreases |es|
  {
    if es == [] || Step(s, es[0]).None? then 0
    else
      var e, t := es[0], Step(s, es[0]).value;
      (if e.Write? && Runs(t, e.i, key) then 1 else 0) + Granted(t, es[1..], key)
  }

  /** Everyone who writes on this key saw no row. */
  predicate FirstClaims(s: State, es: seq<Event>, key: HookKey)
    decreases |es|
  {
    es == [] || Step(s, es[0]).None? ||
    ((es[0].Write? && s.runs[es[0].i].key == key ==> s.runs[es[0].i].phase.saw.None?) &&
     FirstClaims(Step(s, es[0]).value, es[1..], key))
  }

  /** Of any number of claimants that saw no row, however interleaved, exactly one runs. */
  lemma {:induction false} ExactlyOneFirstClaim(s: State, es: seq<Event>, key: HookKey)
    requires FirstClaims(s, es, key)
    ensures Granted(s, es, key) == if key !in s.table && Writes(s, es, key) > 0 then 1 else 0
    decreases |es|
  {
    if es != [] && Step(s, es[0]).Some? {
      ExactlyOneFirstClaim(Step(s, es[0]).value, es[1..], key);
    }
  }

  /**
   * Exactly which write breaks mutual exclusion: that of a claimant which saw a row,
   * while somebody else runs the hook.
   */
  lemma WriteBreaksExclusionIff(s: State, i: nat)
    requires Exclusive(s) && Step(s, Write(i)).Some?
    requires forall j, key :: Runs(s, j, key) ==> key in s.table
    ensures !Exclusive(Step(s, Write(i)).value) <==>
            s.runs[i].phase.saw.Some? && exists j :: Runs(s, j, s.runs[i].key)
  {
    var t, key := Step(s, Write(i)).value, s.runs[i].key;
    assert forall j, k :: j != i ==> (Runs(t, j, k) <==> Runs(s, j, k));
    if s.runs[i].phase.saw.Some? && exists j :: Runs(s, j, key) {
      var j :| Runs(s, j, key);
      assert Runs(t, i, key) && Runs(t, j, key);
    }
  }

  lemma ThreeExec(s: State, a: Event, b: Event, c: Event)
    requires Step(s, a).Some? && Step(Step(s, a).value, b).Some?
    ensures Exec(s, [a, b, c]) == Step(Step(Step(s, a).value, b).value, c)
  {
    assert [a, b, c][1..] == [b, c] && [b, c][1..] == [c] && [c][1..] == [];
    assert forall t: State :: Exec(t, []) == Some(t);
    assert Exec(Step(s, a).value, [b, c]) == Exec(Step(Step(s, a).value, b).value, [c]);
  }

  predicate SawRow(s: State, i: nat, key: HookKey) {
    i in s.runs && s.runs[i].key == key && s.runs[i].phase.Cleared? && s.runs[i].phase.saw.Some?
  }

  lemma BothSee(s: State, key: HookKey, i: nat, j: nat)
    requires key in s.table && !Refuses(Lookup(s, key), s.clock)
    requires i !in s.runs && j !in s.runs && i != j
    ensures var t := Exec(s, [Start(i, key), Start(j, key), Select(i)]);
            t.Some? && t.value.table == s.table && t.value.clock == s.clock &&
            SawRow(t.value, i, key) && j in t.value.runs && t.value.runs[j] == Invocation(key, Begun(s.clock / SECOND))
  {
    var s1 := Step(s, Start(i, key)).value;
    var s2 := Step(s1, Start(j, key)).value;
    assert s2.runs[i].phase == Begun(s.clock / SECOND);
    ThreeExec(s, Start(i, key), Start(j, key), Select(i));
  }

  lemma BothWrite(s: State, key: HookKey, i: nat, j: nat)
    requires key in s.table && !Refuses(Lookup(s, key), s.clock) && i != j
    requires SawRow(s, i, key) && j in s.runs && s.runs[j].key == key && s.runs[j].phase.Begun?
    ensures var t := Exec(s, [Select(j), Write(i), Write(j)]);
            t.Some? && Runs(t.value, i, key) && Runs(t.value, j, key)
  {
    var s1 := Step(s, Select(j)).value;
    assert SawRow(s1, i, key) && SawRow(s1, j, key);
    var s2 := Step(s1, Write(i)).value;
    assert Runs(s2, i, key) && SawRow(s2, j, key);
    ThreeExec(s, Select(j), Write(i), Write(j));
  }

  /** It always can: two claimants that see the same retryable row, failed or stale, both run. */
  lemma RetryableRowRaces(s: State, key: HookKey, i: nat, j: nat)
    requires key in s.table && !Refuses(Lookup(s, key), s.clock)
    requires i !in s.runs && j !in s.runs && i != j
    ensures var t := Exec(s, [Start(i, key), Start(j, key), Select(i)] + [Select(j), Write(i), Write(j)]);
            t.Some? && Runs(t.value, i, key) && Runs(t.value, j, key) && !Exclusive(t.value)
  {
    var before := [Start(i, key), Start(j, key), Select(i)];
    BothSee(s, key, i, j);
    BothWrite(Exec(s, before).value, key, i, j);
    ExecAppend(s, before, [Select(j), Write(i), Write(j)]);
  }

  lemma SecondWrites(s: State, key: HookKey, i: nat, j: nat)
    requires SawRow(s, i, key) && SawRow(s, j, key) && i != j && key in s.table
    ensures var done := Exec(s, [Write(i), Finish(i, true)]);
            done.Some? && DoneOk(done.value, key) && Step(done.value, Write(j)).Some? &&
            Runs(Step(done.value, Write(j)).value, j, key) && !DoneOk(Step(done.value, Write(j)).value, key)
  {
    var s1 := Step(s, Write(i)).value;
    assert Runs(s1, i, key) && SawRow(s1, j, key) && key in s1.table;
    var s2 := Step(s1, Finish(i, true)).value;
    assert SawRow(s2, j, key) && DoneOk(s2, key);
    assert [Write(i), Finish(i, true)][1..] == [Finish(i, true)] && [Finish(i, true)][1..] == [];
    assert Exec(s2, []) == Some(s2) && Exec(s1, [Finish(i, true)]) == Some(s2);
  }

  /** And it does happen: from every retryable row a success can be recorded, deleted and run again. */
  lemma SuccessIsRunAgain(s: State, key: HookKey, i: nat, j: nat)
    requires key in s.table && !Refuses(Lookup(s, key), s.clock)
    requires i !in s.runs && j !in s.runs && i != j
    ensures var done := Exec(s, [Start(i, key), Start(j, key), Select(i)] + [Select(j)] + [Write(i), Finish(i, true)]);
            done.Some? && DoneOk(done.value, key) && Step(done.value, Write(j)).Some? &&
            Runs(Step(done.value, Write(j)).value, j, key) && !DoneOk(Step(done.value, Write(j)).value, key)
  {
    var before := [Start(i, key), Start(j, key), Select(i)];
    BothSee(s, key, i, j);
    var s1 := Exec(s, before).value;
    var s2 := Step(s1, Select(j)).value;
    assert SawRow(s2, i, key) && SawRow(s2, j, key);
    assert [Select(j)][1..] == [] && Exec(s2, []) == Some(s2);
    assert Exec(s1, [Select(j)]) == Some(s2);
    ExecAppend(s, before, [Select(j)]);
    SecondWrites(s2, key, i, j);
    ExecAppend(s, before + [Select(j)], [Write(i), Finish(i, true)]);
  }

  lemma {:induction false} ExecAppend(s: State, es: seq<Event>, fs: seq<Event>)
    requires Exec(s, es).Some?
    ensures Exec(s, es + fs) == Exec(Exec(s, es).value, fs)
    decreases |es|
  {
    if es == [] {
      assert es + fs == fs;
    } else {
      assert (es + fs)[1..] == es[1..] + fs;
      ExecAppend(Step(s, es[0]).value, es[1..], fs);
    }
  }
}
