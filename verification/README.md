# Verified models of the audit pipeline's kernels

Underneath its orchestration the audit pipeline rests on a few small algorithms whose
correctness is a matter of unbounded inputs and whole runs: the Merkle attestation of a
cycle and the instruction that publishes it, the findings store with its two backends, the
claim that decides who may run a post-confirmation hook, the gate in front of an upstream
pull request, the repair of unified-diff headers, the brace scanner and the clustering of
the triage step, the live event stream, the signed URLs and the customer registry, and two
in-place YAML migrations. This project models each of them and proves what it promises.

Loops are methods with invariants, objects that update their fields are classes, and both
are proved against functions; the theorems are lemmas about those functions. What such a
function takes for granted (names of columns and gates, prefixes, texts, times, legal changes)
is stated once more by a lemma that spells it out and does not use the function's own parts.

| module | what it models |
|---|---|
| `Bytes`, `Text`, `Sorting` | byte strings, digests, hexadecimal, UTF-8, decimals, `strip`, Python's `sorted` |
| `Merkle`, `CanonicalRow`, `CycleRoot` | `merkle.py` |
| `Attestation` | `attestation_client.py` |
| `Lifecycle`, `FindingsStore`, `BackendRuns` | `lifecycle.py`, `upsert_finding` / `transition_finding` of `db.py` and `db_postgres.py`, and whole runs of them |
| `HookClaim` | `_run_one_hook` of `db.py` |
| `Authorization` | `bundle/auth.py` |
| `HunkRepair` | `_repair_hunk_counts` of `bundle/patcher.py` and its twin `scripts/fix_patch_hunk_counts.py` |
| `JsonScanner`, `Clustering` | the balanced-brace scanner, the clustering and the dispatch set of `layer25_triage.py` |
| `LogTail`, `TailedBytes`, `EventHub` | the tailer's buffer loop and what it reads, `_broadcast` and the subscriber loop of `jelleo-sse.py` |
| `Base64`, `UrlToken`, `Registry` | URL tokens, salts and registry of `customers.py` |
| `FileLines`, `BugClassMigration`, `EngineFunctionMigration` | `backfill_bug_class.py` and `add_engine_function_field.py` |

Conventions:

* SHA-256 and HMAC are arguments, never definitions. Binding is stated as "or here is a
  collision", and the collision is always between byte strings that the two computations
  under discussion really hash; a bare "some collision exists" would be true of every hash
  with a 32-byte output.
* Exceptions are values of a `Result` or `Option`; a database block that raises leaves the
  tables as they were.
* I/O, clocks, randomness, JSON parsing and tables of constants that only name things come
  in as parameters.

Where the code and its documentation, or two parts of the code, disagree, the model follows
the code, and where a promise is at stake a lemma says exactly when it holds:

* "If anyone modifies a finding field, root changes" (`merkle.py`) fails exactly for rows in
  which a value contains a newline, a field name and `=`, where the field is the next one or,
  except in the first value, its own (`DeterminedIff`, `CycleDeterminedIff`). Every such row
  has a twin with the same root (`AmbiguousCycleHasTwin`, `AmbiguousFindingHasTwin`). A cycle
  without them shares its root with no cycle of other metadata or another set of findings,
  whatever that one holds, short of a collision (`TamperEvidence`). Values without newlines are always fine.
* Equal roots fix the set of records, and their multiplicities only for equal lengths:
  repeating the greatest leaf of an odd list keeps the root (`RepeatedLastLeafKeepsRoot`),
  and `RootsEqualIff` says exactly which lists share one. Distinct finding ids rule this out.
* `merkle_root`'s documentation hashes a single leaf once more with the leaf prefix; the
  code returns the leaf (`SingleLeaf`). The module documentation lists fewer finding fields than the code.
* `_run_one_hook` says that the UNIQUE key makes the claim atomic. That holds for claimants
  that saw no row (`ExactlyOneFirstClaim`). Two that saw the same failed or stale row both
  delete and insert, and both run (`RetryableRowRaces`, `WriteBreaksExclusionIff`). The later
  one then takes the `ok` row of the other away (`OkLostIff`, `SuccessIsRunAgain`). With the
  claim undisturbed between its SELECT and its write, the lease holds (`HookLease`).
* The Postgres backend is said to mirror SQLite. It raises on a stored status that is no
  longer one and on an unknown target (`UpsertsPartIff`), so runs raise in the same places
  exactly when every upsert is of a finding that is there at the start or of a known target
  (`TracesAgreeIff`). It overwrites nullable columns where SQLite keeps them, so a column
  differs after a run exactly when the last upsert of the finding passes NULL over a value
  that was stored or given before (`ColumnAgreesAfterRunIff`). It writes no initial log row and skips ids. In everything else
  the two stay in step (`BackendSimulation`).
* The hunk repair breaks correct diffs in three ways. A removed line whose text starts with
  `--` is a diff line that starts with `---`, where its scan stops, so that a hunk can end up
  empty (`MinusLineEmptiesHunk`). An added `++` line starts with `+++`, which it does not
  count. And it counts what follows a hunk up to the next `@@` or `---`, such as the `-- `
  that ends a mailed patch (`SignatureJoinsHunk`). Of the diffs that a reader by the announced
  counts accepts, exactly those keep the bodies of all hunks in which no body line starts with
  `---` and what is counted behind a hunk makes up for what is missed in it
  (`BodiesSurviveIff`); with headers as the repair spells them they are left alone
  (`CorrectDiffIsLeftAloneIff`). What the repair itself takes for a body is read back whole
  exactly when no counted line follows a line of no known kind (`ReadsBackIff`).
* Clustering: "different engine_function = different root cause" fails because the third rule
  may take its compatible and its similar member from two different fires
  (`JoinsWithoutAPair`). A fire of another function joins a cluster of one function exactly
  when some member has no function and some member is similar (`GuardOpensIff`), and in every
  run a cluster holds two functions exactly when one of its joins was of that kind
  (`MixedIffMixingJoin`). Dispatched are exactly the fires that no two earlier fires of one
  cluster draw in between them (`DispatchedIff`). When every fire names its function no
  cluster mixes two (`ClustersKeepFunctionsApart`), and two that draw can be taken to be one:
  dispatched are the fires that match nothing earlier (`DispatchedIffNew`).
* A log line that is JSON but not an object raises TypeError and ends the tailer of that
  workspace; `ChunkingIndependence` says exactly when. Every read decodes its bytes to the
  end, so a character that is written in two parts is lost: the reads give the text back
  exactly when none begins inside a character (`DecodedIntactIff`). A line end cut in two
  does no harm (`ReadsIndependence`).
* Both migrations are idempotent on newline-terminated files, and in general exactly when
  the new line does not land behind an unterminated last line (`IdempotentIff`, twice).
* `add_engine_function_field.py` looks for the field only behind the `bug_class:` line, and no
  further than the next line that starts in the first column, although its comment names the
  next `- id:` line as the end of a hypothesis. A hypothesis ends with a duplicate key exactly
  when two of its lines are the field or a `bug_class:` line behind which that scan finds none
  (`FieldTwiceIff`). So it does when the field stands in front (`FieldBeforeClass`), or only
  behind a comment in the first column (`FieldBehindColumnOne`), or when there are two
  `bug_class:` lines and no field.
* A fresh salt revokes every token issued under another one, for as long as no change brings
  that salt back (`RevokedForGood`). Removing a customer brings the empty salt back, and with
  it every unexpired token from before salts verifies (`RemovalRevivesLegacyTokens`).
* A comment in `write_authorization` says that the Kani gate must be recorded. The code asks for
  five others (`GateRefusalIff`, `AuthorizedIff`), and a verification without it is authorised.
* The error message of `validate_customer_id` promises 2 to 32 lower-case characters; the
  pattern takes 2 to 64 of either case with `_`, and one trailing newline
  (`MessageIsNarrower`).

## Model

| member | source | states |
|---|---|---|
| Merkle.Pair | src/audit_pipeline/merkle.py:155-160 | one turn of the loop builds exactly the level above, the last node doubled on an odd level |
| Merkle.MerkleRoot | src/audit_pipeline/merkle.py:144-161 | the loop terminates with the root of the sorted leaves, 32 zero bytes for none, and counts its internal hashes |
| Merkle.RootIgnoresOrder | src/audit_pipeline/merkle.py:144-161 | every permutation of the leaves has the same root |
| Merkle.DepthIsLog | src/audit_pipeline/merkle.py:154-161 | the number of levels is the least d with n at most 2^d |
| Merkle.SingleLeaf | src/audit_pipeline/merkle.py:144-161 | the root of a single leaf is that leaf |
| Merkle.HashCount | src/audit_pipeline/merkle.py:154-161 | n leaves cost between n-1 and n-1+ceil(log2 n) internal hashes |
| Merkle.LeafIsNotNode | src/audit_pipeline/merkle.py:134-141 | a leaf input is never a node input |
| Merkle.ExpansionFixesFold | src/audit_pipeline/merkle.py:154-161 | lists that fill one perfect tree alike have one root, for every hash |
| Merkle.FoldFixesExpansion | src/audit_pipeline/merkle.py:154-161 | at equal depth, equal roots fill the perfect tree alike, or two node inputs collide |
| Merkle.DepthsDiffer | src/audit_pipeline/merkle.py:134-161 | a tree over leaf hashes shares its root with a deeper tree only by a leaf/node or node/node collision |
| Merkle.RootsEqualIff | src/audit_pipeline/merkle.py:134-161 | without a collision among the hashed inputs, roots of non-empty lists are equal exactly when the sorted leaves fill the same perfect tree |
| Merkle.Binding | src/audit_pipeline/merkle.py:134-161 | equal roots mean the same set of records, the same multiset for equal lengths, or a collision among the inputs hashed |
| Merkle.RepeatedLastLeafKeepsRoot | src/audit_pipeline/merkle.py:153-156 | repeating the greatest leaf of an odd list of three or more keeps the root |
| Merkle.TreeInBytes | src/audit_pipeline/merkle.py:134-161 | in bytes: 32 zeros for no leaf, the leaf prefix and the record for a leaf, and the roots of two and three ordered leaves, the smaller one left and the odd one doubled |
| Sorting.StringLeMeans | src/audit_pipeline/merkle.py:127-128 | field names are ordered by code point: a prefix first, otherwise by the first difference |
| CanonicalRow.CanonicalEncode | src/audit_pipeline/merkle.py:119-131 | the loop and join give the sorted `field=value` lines, each ended by a newline, missing and None empty |
| CanonicalRow.TextFieldByField | src/audit_pipeline/merkle.py:119-131 | the text of sorted fields, name by name: the name, an equals sign, the value or nothing, a newline; a lone newline for no field |
| Text.Utf8Lengths | src/audit_pipeline/merkle.py:131-131 | the bytes of one character of each of the four lengths |
| Bytes.HexSpelled | src/audit_pipeline/merkle.py:204-204 | two lower-case digits a byte, the high one first |
| CanonicalRow.NewlineFreeUnambiguous | src/audit_pipeline/merkle.py:119-131 | values without newlines hold neither their own separator nor the next one |
| CanonicalRow.LinesInjective | src/audit_pipeline/merkle.py:126-131 | unambiguous values share their encoding with no other values, whatever those hold |
| CanonicalRow.CanonicalInjective | src/audit_pipeline/merkle.py:119-131 | a row that shares its encoding with an unambiguous one renders like it in every field, whatever it holds |
| CanonicalRow.AmbiguousTwin | src/audit_pipeline/merkle.py:126-131 | moving text across a separator inside a value keeps the encoding |
| CanonicalRow.AmbiguousRowHasTwin | src/audit_pipeline/merkle.py:119-131 | every row with a value that holds the next field's separator or, but for the first, its own shares its encoding with a row that renders differently |
| CanonicalRow.DeterminedIff | src/audit_pipeline/merkle.py:119-131 | a row's encoding is its own, up to rendering, exactly when no value holds the separator of its own field (the first excepted) or of the next one |
| CycleRoot.CycleLeaves | src/audit_pipeline/merkle.py:181-195 | the loop gives one metadata leaf and one leaf per finding, with the details digest filled in where missing |
| CycleRoot.ComputeCycleRoot | src/audit_pipeline/merkle.py:198-204 | the hex root of the cycle, and the bound on its internal hashes |
| CycleRoot.CycleFieldsDistinct | src/audit_pipeline/merkle.py:95-106 | no cycle field is listed twice |
| CycleRoot.FindingFieldsDistinct | src/audit_pipeline/merkle.py:78-93 | no finding field is listed twice |
| CycleRoot.V4IsSound | src/audit_pipeline/merkle.py:78-106 | field names are plain, ids are attested, and a cycle row never encodes like a finding row |
| CycleRoot.NewlineFreeCycle | src/audit_pipeline/merkle.py:119-131 | a cycle whose attested values hold no newline is unambiguous |
| CycleRoot.EqualRootsSameCycle | src/audit_pipeline/merkle.py:181-204 | for every sound schema: a cycle with the root of an unambiguous one is the same cycle, or two of the hashed inputs collide; nothing is asked of the other cycle |
| CycleRoot.TamperEvidence | src/audit_pipeline/merkle.py:78-204 | whatever cycle has the root of an unambiguous one has equal rendered metadata and the same set of rendered findings, the same multiset with distinct ids, or two inputs collide |
| CycleRoot.EveryColumnIsAttested | src/audit_pipeline/merkle.py:78-204 | with the columns by name: whatever cycle has the published root of an unambiguous one has the same ten metadata columns, and each finding of either has one in the other with the same fourteen columns, or two inputs collide |
| CycleRoot.NothingElseIsAttested | src/audit_pipeline/merkle.py:78-204 | cycles that agree in those named columns, finding by finding, have one published root |
| CycleRoot.SameFindingSameRecord | src/audit_pipeline/merkle.py:181-194 | findings that agree in the fourteen named columns have one record, and an unambiguous finding has its record with no other |
| CycleRoot.DigestIsFilledIn | src/audit_pipeline/merkle.py:185-194 | the digest of the details stands in exactly where the digest column is missing; every other column is hashed as it is |
| CycleRoot.AmbiguousCycleHasTwin | src/audit_pipeline/merkle.py:119-131 | an ambiguous metadata row, by its own or the next field's separator, can be replaced by a different one under the same root |
| CycleRoot.AmbiguousFindingHasTwin | src/audit_pipeline/merkle.py:119-131 | so can an ambiguous finding |
| CycleRoot.CycleDeterminedIff | src/audit_pipeline/merkle.py:119-195 | exactly the unambiguous cycles are determined, up to rendering, by the records that are hashed |
| CycleRoot.DetailsAreBound | src/audit_pipeline/merkle.py:164-194 | equal digest columns mean equal details, or their JSON texts collide |
| CycleRoot.CycleRootIgnoresOrder | src/audit_pipeline/merkle.py:198-204 | the order in which findings are read does not change the root |
| Attestation.BorshRoundTrip | src/audit_pipeline/attestation_client.py:65-68 | a length-prefixed string is read back with whatever follows it |
| Attestation.RootHexToBytes | src/audit_pipeline/attestation_client.py:71-84 | a root that is accepted is the decoded text, 32 bytes long |
| Attestation.RootHexIff | src/audit_pipeline/attestation_client.py:71-84 | accepted as given bytes are exactly the 64 hexadecimal digits of those 32 bytes, in either letter case and without white space |
| Attestation.InstructionRoundTrip | src/audit_pipeline/attestation_client.py:99-147 | validated arguments are read back from their instruction |
| Attestation.InstructionCanonical | src/audit_pipeline/attestation_client.py:99-147 | data that reads as valid arguments is the instruction of those arguments |
| Attestation.InstructionDecodesIff | src/audit_pipeline/attestation_client.py:99-147 | data is the instruction of valid arguments exactly when it reads as them |
| Attestation.InstructionShape | src/audit_pipeline/attestation_client.py:99-147 | the instruction is 84 bytes plus two non-empty strings, at most 180, and ends with the root |
| Attestation.InstructionInBytes | src/audit_pipeline/attestation_client.py:99-147 | the instruction is the first 8 bytes of the hash of `global:publish_attestation`, the protocol, two strings behind little-endian lengths, the little-endian count and the root |
| Attestation.AcceptedIff | src/audit_pipeline/attestation_client.py:99-131 | accepted are exactly a 32-byte protocol and root, 1 to 32 and 1 to 64 bytes of text, and a count of 32 bits |
| Attestation.CycleRootIsAccepted | src/audit_pipeline/attestation_client.py:71-84 | the hex root of every cycle is accepted |
| Attestation.PublishedRootIsTheCycleRoot | src/audit_pipeline/attestation_client.py:71-147 | an instruction made from a cycle's hex root ends with the bytes of that cycle's tree root |
| Lifecycle.ParseOfValue | src/audit_pipeline/lifecycle.py:28-39 | every status is read back from its stored value |
| Lifecycle.ValuesSpelled | src/audit_pipeline/lifecycle.py:28-39 | the eight stored values by name |
| Lifecycle.ChangesMoveForward | src/audit_pipeline/lifecycle.py:42-61 | every legal change raises the rank; terminal are exactly the statuses without one |
| Lifecycle.ChangesSpelled | src/audit_pipeline/lifecycle.py:42-53 | the legal changes one by one |
| FindingsStore.MovedIff | src/audit_pipeline/db.py:538-563 | an upsert moves the status exactly when the stored one parses and the change is legal |
| FindingsStore.FindingsDB.constructor | src/audit_pipeline/db.py:500-688 | an empty store with its known targets |
| FindingsStore.FindingsDB.UpsertFinding | src/audit_pipeline/db.py:500-647 | the whole new store of every branch, the index kept consistent, and the id of the key returned |
| FindingsStore.FindingsDB.TransitionFinding | src/audit_pipeline/db.py:649-688 | the exception raised and the whole new store; a rejected call changes nothing |
| FindingsStore.PostgresFindingsDB.UpsertFinding | src/audit_pipeline/db_postgres.py:384-487 | the same for the second backend, with its exceptions and the ids it skips |
| FindingsStore.PostgresFindingsDB.TransitionFinding | src/audit_pipeline/db_postgres.py:489-521 | the exception raised and the whole new store; a rejected call changes nothing |
| FindingsStore.UpsertKeepsWellFormed | src/audit_pipeline/db.py:520-647 | UNIQUE index, table, id counter and log references stay consistent, in both backends |
| FindingsStore.TransitionKeepsWellFormed | src/audit_pipeline/db.py:669-688 | so they do under a transition |
| FindingsStore.UpdateSpelled | src/audit_pipeline/db.py:538-634 | column by column: an update leaves and logs the proposed status where the stored one may legally become it, and otherwise leaves the old one and logs nothing |
| FindingsStore.SqliteUpsertSpelled | src/audit_pipeline/db.py:520-647 | a known finding is updated with nullable columns kept where none is given; a new one is inserted and logged with its status |
| FindingsStore.PgUpsertSpelled | src/audit_pipeline/db_postgres.py:413-487 | the four cases of the second backend, with what each raises, stores and logs and the id it uses up |
| FindingsStore.TransitionSpelled | src/audit_pipeline/db.py:669-688 | a legal transition stores and logs the status asked for; any other call changes nothing |
| BackendRuns.SqliteCallView | src/audit_pipeline/db.py:520-688 | a call changes the row and log of its own finding alone, and there as the per-finding function says |
| BackendRuns.PgCallView | src/audit_pipeline/db_postgres.py:413-521 | the same for Postgres |
| BackendRuns.ChainIsShort | src/audit_pipeline/lifecycle.py:42-53 | a chain of legal changes has at most six rows and ends in a status |
| BackendRuns.LogChain | src/audit_pipeline/db.py:520-688 | every call sequence keeps every finding's log one chain from NULL along legal changes to its current status |
| BackendRuns.LogChainFromEmpty | src/audit_pipeline/db.py:520-688 | in every store reached from an empty one, each finding's log is such a chain of at most six rows |
| BackendRuns.StatusMovesForward | src/audit_pipeline/db.py:520-688 | no run loses a finding or moves its status back |
| BackendRuns.TerminalForever | src/audit_pipeline/lifecycle.py:50-52 | a terminal status never changes, whatever is called |
| BackendRuns.ProposalsAreLogged | src/audit_pipeline/db.py:520-688 | in every run the statuses logged for a finding are exactly those proposed for it that were legal when proposed, in order, and its status is the last of them |
| BackendRuns.TakenWereProposed | src/audit_pipeline/db.py:520-688 | each of them was proposed by a call of the run for that finding |
| BackendRuns.PgProposalsAreLogged | src/audit_pipeline/db_postgres.py:413-521 | the second backend stores the same status and logs the same, but for the first row |
| BackendRuns.CallInStep | src/audit_pipeline/db_postgres.py:413-521 | related stores stay related under one call, unless it inserts for an unknown target, and raise the same |
| BackendRuns.EmptyStoresRelated | src/audit_pipeline/db_postgres.py:384-521 | two empty stores are related and chained, so the run theorems start there |
| BackendRuns.BackendSimulation | src/audit_pipeline/db_postgres.py:384-521 | any sequence of calls whose upserts find their row or their target raises in the same places and leaves equal rows up to the nullable columns, SQLite's log being one initial row and then Postgres's |
| BackendRuns.TracesAgreeIff | src/audit_pipeline/db_postgres.py:413-521 | from related stores a run raises in the same places in both backends exactly when every upsert's finding is in Postgres at the start or its target is known |
| BackendRuns.UpsertsPartIff | src/audit_pipeline/db_postgres.py:426-472 | an upsert raises in one backend only exactly when the stored status is stale or a new finding's target is unknown |
| BackendRuns.NullableColumnsAgreeIff | src/audit_pipeline/db_postgres.py:451-464 | an update keeps the nullable columns equal exactly when no None meets a stored value |
| BackendRuns.NullableColumnsAgree | src/audit_pipeline/db.py:566-578 | when every call passes every nullable column, runs keep them equal |
| BackendRuns.CellAfterRun | src/audit_pipeline/db_postgres.py:413-487 | after a run SQLite has the last value given for a column, Postgres the last argument, NULL or not |
| BackendRuns.ColumnAgreesAfterRunIff | src/audit_pipeline/db_postgres.py:451-464 | a column that is equal at the start is equal after a run exactly when there is no upsert of the finding, the last one gives a value, or none does and nothing was stored |
| HookClaim.HookRuns.Claim | src/audit_pipeline/db.py:765-803 | granted exactly when there is no row, or it records an error, or it is unfinished and at least 3,600 seconds old; the whole new table |
| HookClaim.HookRuns.Record | src/audit_pipeline/db.py:843-872 | exactly the outcome of the claimed row changes; no row is added |
| HookClaim.ClaimIsSelectAndWrite | src/audit_pipeline/db.py:765-803 | the statements of a claim back to back give the answer and the table of the claim method, and change nothing else |
| HookClaim.InvocationIsClaimAndRecord | src/audit_pipeline/db.py:765-872 | an invocation that nobody interrupts leaves the table of claim and then record |
| HookClaim.StepKeepsLease | src/audit_pipeline/db.py:765-872 | every undisturbed, timely step keeps the lease: whoever runs owns the unfinished row of its key, alone |
| HookClaim.HookLease | src/audit_pipeline/db.py:765-872 | in every state of a run of undisturbed claims, with hooks that end or crash within their hour, no two invocations run one hook of one finding |
| HookClaim.NobodyRunning | src/audit_pipeline/db.py:765-803 | a state without invocations satisfies the lease, whatever the table holds |
| HookClaim.OkIsForever | src/audit_pipeline/db.py:773-774 | in runs of undisturbed, timely claims an `ok` row is never changed again and nobody runs the hook after it |
| HookClaim.OkLostIff | src/audit_pipeline/db.py:765-872 | statement by statement, an `ok` row is taken away exactly by the write of a claimant that had seen a row, or by the error of a second run |
| HookClaim.SuccessIsRunAgain | src/audit_pipeline/db.py:769-872 | from every state with a failed or stale row a success can be recorded, deleted and the hook run again |
| HookClaim.AttemptIsGranted | src/audit_pipeline/db.py:765-803 | an undisturbed attempt on a row that does not refuse runs and owns the new row |
| HookClaim.CrashedClaimIsRetaken | src/audit_pipeline/db.py:775-799 | an hour after an unfinished claim nobody runs it, and the next attempt takes it over |
| HookClaim.ClaimIsOpenIff | src/audit_pipeline/db.py:769-799 | statement by statement too, the claim is refused exactly by an `ok` row and an unfinished row of less than 3,600 seconds |
| HookClaim.FailureIsRetried | src/audit_pipeline/db.py:769-803 | wherever an error is recorded, the next undisturbed attempt runs the hook and owns the new row |
| HookClaim.ErrorThenRetry | src/audit_pipeline/db.py:769-872 | in particular right after a run has failed |
| HookClaim.ExactlyOneFirstClaim | src/audit_pipeline/db.py:796-803 | statement by statement, of any number of claimants that saw no row exactly one runs |
| HookClaim.WriteBreaksExclusionIff | src/audit_pipeline/db.py:790-799 | a write breaks mutual exclusion exactly when its claimant saw a row and somebody else is running |
| HookClaim.RetryableRowRaces | src/audit_pipeline/db.py:769-799 | from every state with a failed or stale row two claimants can both end up running |
| Authorization.BundleDir.WriteAuthorization | src/audit_pipeline/bundle/auth.py:119-461 | the first failing check in order, or the marker; and the whole directory afterwards for every crash point and signing outcome |
| Authorization.GateRefusalIff | src/audit_pipeline/bundle/auth.py:186-213 | a request that gets that far is refused as missing exactly when one of the five named gates is not recorded, and as failed exactly when all are and one is not true |
| Authorization.AuthorizedIff | src/audit_pipeline/bundle/auth.py:119-300 | authorised are exactly requests with a 40-digit engine hash, 1 to 168 hours, both files, the five named gates passed, the others passed or validly skipped, and the phrase with the finding and the patch digest |
| Authorization.MarkerSpelled | src/audit_pipeline/bundle/auth.py:300-330 | the marker holds what was asked for, both digests and the times in whole seconds |
| Authorization.MarkerHasAStep | src/audit_pipeline/bundle/auth.py:313-344 | in every run, a marker or signature in place goes back to an authorise step for that finding that wrote it |
| Authorization.AcceptedStepJustifies | src/audit_pipeline/bundle/auth.py:518-614 | if a step's marker is accepted now, that step saw what is there now |
| Authorization.AcceptedOnlyIfAuthorized | src/audit_pipeline/bundle/auth.py:119-614 | an accepted marker implies an earlier authorise step with the same finding, engine, patch and verification bytes (or a collision), passed gates, the phrase of that patch, and time left of at most 168 hours |
| Authorization.AcceptedRestsOnFiveGates | src/audit_pipeline/bundle/auth.py:119-614 | an accepted marker goes back to a step that saw the five named gates passed, the same files (or a collision) and the typed phrase, less than 168 hours ago |
| Authorization.AcceptedByDefaultOnlyIfSigned | src/audit_pipeline/bundle/auth.py:616-833 | by default that step also signed, so a crash before signing never opens the gate |
| Authorization.SignedStepIsAccepted | src/audit_pipeline/bundle/auth.py:518-823 | a completed, signed step is accepted for what it saw exactly until its expiry second |
| Authorization.LastStepsWin | src/audit_pipeline/bundle/auth.py:313-461 | after any run the marker in place is that of the last step that placed one, and the signature is for that of the last that signed |
| Authorization.GateIsOpenIff | src/audit_pipeline/bundle/auth.py:119-833 | after any run a marker is accepted exactly when, of the last step that placed one, the engine, both files (or a collision), the gates and the time still stand and the sidecar is signed for it, or unsigned where that is allowed |
| Authorization.PhraseNamesOnePatch | src/audit_pipeline/bundle/auth.py:100-107 | one phrase belongs to one finding and one patch digest |
| HunkRepair.ParseRendered | src/audit_pipeline/bundle/patcher.py:36-80 | a header the repair writes is read back with its four numbers |
| HunkRepair.HeaderIsText | src/audit_pipeline/bundle/patcher.py:36-36 | a line that is read as a header is the text of the pattern around four runs of digits, and they are its numbers |
| HunkRepair.TextIsHeader | src/audit_pipeline/bundle/patcher.py:36-36 | every such text is read as its four numbers, whatever follows |
| HunkRepair.RenderSpelled | src/audit_pipeline/bundle/patcher.py:78-80 | the header the repair writes, letter by letter, with its newline |
| HunkRepair.CountsSpelled | src/audit_pipeline/bundle/patcher.py:59-77 | which lines count on which side, and which end a body |
| HunkRepair.CountBody | src/audit_pipeline/bundle/patcher.py:65-77 | the loop counts the old and the new side of a body |
| HunkRepair.FindBodyEnd | src/audit_pipeline/bundle/patcher.py:59-64 | the scan stops at the first `@@` or `---` line, or at the end |
| HunkRepair.RepairHunkCounts | src/audit_pipeline/bundle/patcher.py:39-83 | the index loop computes the repair function |
| HunkRepair.RepairedTextSplits | src/audit_pipeline/bundle/patcher.py:39-83 | the joined text splits into the repaired lines again, so no line is lost or run into another, and repairing a text twice is repairing it once |
| HunkRepair.TrueHeaderStays | src/audit_pipeline/bundle/patcher.py:48-83 | a header spelled out with true counts is returned unchanged in front of its body |
| HunkRepair.RepairLineByLine | src/audit_pipeline/bundle/patcher.py:48-83 | headers keep their starts and get the counts of what the scan takes for their body; every other line stays where it is |
| HunkRepair.RepairFixpointIff | scripts/fix_patch_hunk_counts.py:22-62 | left unchanged are exactly the diffs whose headers are canonical and have the counts of what the scan takes for their bodies |
| HunkRepair.RepairKeepsBodies | src/audit_pipeline/bundle/patcher.py:59-82 | what the scan takes for the body of a line is the same lines before and after |
| HunkRepair.RepairIdempotent | scripts/fix_patch_hunk_counts.py:22-62 | repairing twice is repairing once, on every list of lines |
| HunkRepair.WellShapedReads | src/audit_pipeline/bundle/patcher.py:65-80 | a reader that trusts the true counts takes a well-shaped body whole |
| HunkRepair.IllShapedIsCutShort | src/audit_pipeline/bundle/patcher.py:65-80 | on any other body it fails or leaves counted lines behind |
| HunkRepair.ReadsBackIff | src/audit_pipeline/bundle/patcher.py:65-80 | of a body that the scan takes whole, all counted lines are read back exactly when it is well shaped; any other body is a matter of HunkSurvivesIff |
| HunkRepair.RepairedDiffReads | src/audit_pipeline/bundle/patcher.py:39-83 | when what the scan takes for bodies is well shaped, a reader by counts splits the repaired diff into exactly those bodies under headers of their lengths |
| HunkRepair.ReadingKeptIff | src/audit_pipeline/bundle/patcher.py:39-83 | a reader by counts that accepts a diff finds the same bodies after the repair exactly when the repair writes the counts that were there |
| HunkRepair.CountsKeptIff | src/audit_pipeline/bundle/patcher.py:59-80 | a hunk that reads by its own counts keeps them exactly when no body line starts with three minus signs, nothing behind it is counted on the old side, and as much on the new side as there are body lines that start with three plus signs |
| HunkRepair.HunkSurvivesIff | src/audit_pipeline/bundle/patcher.py:48-83 | such a hunk is read with the same body after the repair exactly under that condition, if the rest still reads |
| HunkRepair.BodiesSurviveIff | src/audit_pipeline/bundle/patcher.py:39-83 | of all diffs that a reader by counts accepts, exactly those whose hunks all meet that condition keep all bodies |
| HunkRepair.CorrectDiffIsLeftAloneIff | scripts/fix_patch_hunk_counts.py:22-62 | and of all of them exactly those that also have canonical headers are left unchanged |
| HunkRepair.MinusLineEmptiesHunk | src/audit_pipeline/bundle/patcher.py:59-80 | a correct hunk of a removed line that starts with three minus signs and a context line is rewritten to counts of 0 and read as empty |
| HunkRepair.SignatureJoinsHunk | src/audit_pipeline/bundle/patcher.py:59-80 | a correct hunk of one context line followed by a removed-looking line, such as a mail signature, is rewritten to count that line and read with it |
| HunkRepair.PlainBody | src/audit_pipeline/bundle/patcher.py:67-77 | bodies of only counted lines and `\` notes are well shaped and belong to the hunk whole |
| JsonScanner.ScanObject | src/audit_pipeline/layer25_triage.py:751-783 | the inner loop stops where the automaton first brings the depth to zero, or reports that it never does |
| JsonScanner.ExtractBalancedJsonObjects | src/audit_pipeline/layer25_triage.py:731-784 | the nested loops sharing the index terminate with the list of objects |
| JsonScanner.ScanFindsFirstZero | src/audit_pipeline/layer25_triage.py:755-780 | the scan ends at k exactly when the depth is positive before k and zero there |
| JsonScanner.ScanIffBalanced | src/audit_pipeline/layer25_triage.py:751-783 | from an opening brace the scan ends exactly behind a balanced prefix |
| JsonScanner.SpansCover | src/audit_pipeline/layer25_triage.py:743-784 | on every text the spans found are in order, disjoint and balanced, with no brace between them and nothing more to find |
| JsonScanner.ObjectsAreTheSpans | src/audit_pipeline/layer25_triage.py:743-784 | what is returned are the texts of those spans |
| JsonScanner.CoverIsUnique | src/audit_pipeline/layer25_triage.py:743-784 | no other list of spans covers the text like that |
| JsonScanner.ScannerRoundTrip | src/audit_pipeline/layer25_triage.py:731-784 | from every interleaving of brace-free prose and rendered objects exactly the objects come back, in order |
| Clustering.JaccardMeaning | src/audit_pipeline/layer25_triage.py:936-939 | the similarity is symmetric and between 0 and 1, 0 exactly for disjoint sets and 1 exactly for equal non-empty ones |
| Clustering.ShinglesSpelled | src/audit_pipeline/layer25_triage.py:895-897 | a shingle is three tokens in a row |
| Clustering.TwoFires | src/audit_pipeline/layer25_triage.py:1011-1053 | of two fires the second joins the first exactly under one of the three rules, spelled out field by field |
| Clustering.OtherFileStaysApart | src/audit_pipeline/layer25_triage.py:1011-1053 | two fires of one function in different files under different bug classes stay apart |
| Clustering.ClusterStrongFires | src/audit_pipeline/layer25_triage.py:942-1054 | the nested loops with their three rules compute the clusters |
| Clustering.Partition | src/audit_pipeline/layer25_triage.py:995-1054 | with distinct ids every fire is in exactly one cluster, once, and a cluster is named after its first member |
| Clustering.RepresentativesAreNew | src/audit_pipeline/layer25_triage.py:1009-1050 | no representative matches any earlier fire pairwise under any of the three rules |
| Clustering.MembersAreLinked | src/audit_pipeline/layer25_triage.py:1009-1053 | every other member is linked to an earlier member of its own cluster, by one of the first two rules or by similarity |
| Clustering.ChainToRepresentative | src/audit_pipeline/layer25_triage.py:1009-1053 | from every member a chain of such links to ever earlier members ends at the representative |
| Clustering.MembersInOrder | src/audit_pipeline/layer25_triage.py:1048-1053 | members are in the order in which the fires came |
| Clustering.ClustersDisjoint | src/audit_pipeline/layer25_triage.py:1048-1053 | no two clusters share an id |
| Clustering.DispatchSet | src/audit_pipeline/layer25_triage.py:1207-1232 | the lookup loops and the filter compute the dispatch list |
| Clustering.LookupFindsHome | src/audit_pipeline/layer25_triage.py:1207-1210 | the lookup built from disjoint clusters finds the cluster of every member |
| Clustering.DispatchIsTheClusterIds | src/audit_pipeline/layer25_triage.py:1204-1232 | the dispatch list is exactly the cluster ids, in order |
| Clustering.ClustersKeepFunctionsApart | src/audit_pipeline/layer25_triage.py:1030-1046 | when every fire names its engine function, no cluster mixes two |
| Clustering.GuardOpensIff | src/audit_pipeline/layer25_triage.py:1011-1046 | a fire of another function matches a cluster of at most one function exactly when some member has no function and some member is similar to it |
| Clustering.MixedIffMixingJoin | src/audit_pipeline/layer25_triage.py:1009-1053 | in every run a cluster holds two functions exactly when some fire joined it that way, having matched no cluster before it |
| Clustering.DispatchedIffNew | src/audit_pipeline/layer25_triage.py:942-1232 | then dispatched are exactly the fires that match no earlier fire |
| Clustering.DispatchedIff | src/audit_pipeline/layer25_triage.py:1009-1232 | on every input with distinct ids: dispatched are exactly the fires that no two earlier fires of one cluster, or one taken twice, draw in by one of the rules |
| Clustering.SplitEvidenceJoins | src/audit_pipeline/layer25_triage.py:1036-1046 | the third rule may take similarity and compatibility from different members |
| Clustering.JoinsWithoutAPair | src/audit_pipeline/layer25_triage.py:1030-1046 | three fires, one without a function, of which the last joins although it matches no single earlier fire |
| Clustering.RepeatedIdLosesAFire | src/audit_pipeline/layer25_triage.py:1048-1050 | with a repeated id a later fire replaces a cluster and another fire is in none |
| LogTail.Tailer.Feed | deploy/jelleo-sse.py:185-204 | the loop broadcasts, keeps in the buffer and dies as the drain function says |
| LogTail.Tailer.Reopen | deploy/jelleo-sse.py:164-164 | a half-read line is dropped |
| LogTail.LinesReadBack | deploy/jelleo-sse.py:190-195 | every list of newline-free lines with an open rest is cut back into exactly those lines and that rest |
| LogTail.TextIsLines | deploy/jelleo-sse.py:190-195 | every text is such a list of lines and such a rest |
| LogTail.TwoPieces | deploy/jelleo-sse.py:189-195 | reading a second piece behind the remainder of the first gives the lines of the whole |
| LogTail.DrainSendsTheLines | deploy/jelleo-sse.py:190-204 | what is sent is what the stripped non-blank complete lines say up to the first that is no object; what stays is the unterminated rest |
| LogTail.StampedIs | deploy/jelleo-sse.py:202-203 | `_cycle` names the cycle, `customer_id` the customer of the workspace, and every other field is as it was read |
| Text.StripIs | deploy/jelleo-sse.py:194-194 | what is stripped off a line is white space at its ends, and none is left there |
| LogTail.ChunkingIndependence | deploy/jelleo-sse.py:182-204 | however the decoded text is cut into chunks, the events are those of the whole text, in order and once each; the tailer dies exactly when a complete line is JSON but no object |
| TailedBytes.DecodedIntactIff | deploy/jelleo-sse.py:166-189 | reads of a UTF-8 text, each decoded by itself with replacement, give the text back exactly when no read begins inside a character |
| TailedBytes.CutCharacter | deploy/jelleo-sse.py:166-189 | a character cut short by the end of a read is one replacement character, each byte left of it another |
| TailedBytes.LineEndsSpelled | deploy/jelleo-sse.py:166-189 | both other line ends are read as a newline, and nothing else changes |
| TailedBytes.ReadsIndependence | deploy/jelleo-sse.py:166-204 | however the bytes of a text are cut between characters, even inside a two-character line end, events, death and remainder are those of the whole text |
| EventHub.Hub.constructor | deploy/jelleo-sse.py:58-58 | no subscribers, no queues, no drops |
| EventHub.Hub.AddQueue | deploy/jelleo-sse.py:391-392 | a new empty queue under its customer; nothing else changes |
| EventHub.Hub.Discard | deploy/jelleo-sse.py:403-404 | the queue is taken from its customer; nothing else changes |
| EventHub.Hub.Offer | deploy/jelleo-sse.py:228-240 | one queue takes the event, the oldest leaving and being counted when it is full |
| EventHub.Hub.Publish | deploy/jelleo-sse.py:224-240 | exactly the queues of the event's customer and of `*` take it, and the drops are counted |
| EventHub.Hub.Receive | deploy/jelleo-sse.py:394-400 | the oldest event, or the heartbeat for an empty queue |
| EventHub.BoundedQueue | deploy/jelleo-sse.py:224-240 | under every interleaving a queue has at most 200 events and is the latest suffix of what was published; delivered is the rest in order but for the drops; delivered, dropped and queued add up |
| EventHub.LosslessIffNoDrop | deploy/jelleo-sse.py:231-240 | nothing is lost exactly when no drop is counted |
| EventHub.CounterIsTheDrops | deploy/jelleo-sse.py:224-240 | over any run the counter of a customer grows by the number of times one of its broadcasts finds a queue full, summed over all queues |
| EventHub.SeatDropsAreCounted | deploy/jelleo-sse.py:224-240 | for a subscriber of one customer that number is what its own account of the queue says was dropped, and other customers add nothing |
| EventHub.SubscriberIsAlone | deploy/jelleo-sse.py:224-240 | whatever other connections do, a queue and its deliveries are what its own broadcasts and gets make of them |
| EventHub.SubscribingOwns | deploy/jelleo-sse.py:391-392 | a new subscription owns an empty queue that belongs to no other customer |
| EventHub.CustomersAreIsolated | deploy/jelleo-sse.py:224-240 | a subscriber never queues or receives an event of another customer |
| EventHub.TailedEventsStayHome | deploy/jelleo-sse.py:202-204 | whatever customer a log line names, its event goes to the customer of the workspace |
| Base64.RepadStripped | src/audit_pipeline/customers.py:404-407 | stripping the padding and adding `-len % 4` signs again is the identity on encoder output |
| Base64.PaddedRoundTrip | src/audit_pipeline/customers.py:429-448 | the lenient decoder inverts the encoder on every byte string |
| Base64.UnpaddedRoundTrip | src/audit_pipeline/customers.py:428-448 | every byte string comes back from its unpadded text |
| Base64.AlphabetSpelled | src/audit_pipeline/customers.py:404-407 | the URL alphabet at the ends of its ranges, and three encodings |
| UrlToken.IssuedIsRead | src/audit_pipeline/customers.py:369-407 | an issued token is parsed into its expiry and its tag |
| UrlToken.TokenSpelled | src/audit_pipeline/customers.py:298-370 | the token is the expiry, a dot and the text of an HMAC over id, bar and expiry, under the HKDF key of the platform key, the salt and the named info string |
| Text.DecimalsSpelled | src/audit_pipeline/customers.py:370-372 | how numbers are written in messages and tokens |
| UrlToken.IssuedVerifiesIffUnexpired | src/audit_pipeline/customers.py:338-410 | an issued token verifies with the same key, customer and salt exactly while now is at most its expiry |
| UrlToken.MessageInjective | src/audit_pipeline/customers.py:370-370 | the signed message, id then bar then expiry, determines both, whatever the id contains |
| UrlToken.TagsBind | src/audit_pipeline/customers.py:298-335 | equal tags are for the same customer, salt and expiry, or two HMAC inputs under 32-byte keys collide |
| UrlToken.TokenIsBound | src/audit_pipeline/customers.py:338-410 | an issued token accepted for a customer and salt was issued for them, or HMAC collides |
| UrlToken.OtherSaltIsRefused | src/audit_pipeline/customers.py:376-410 | under another salt a token is refused, or HMAC collides |
| UrlToken.AcceptedTagsAgree | src/audit_pipeline/customers.py:376-410 | two accepted tokens with one tag agree in customer, salt and expiry, or HMAC collides |
| Registry.CustomerRegistry.AddCustomer | src/audit_pipeline/customers.py:132-185 | the error of the first failing check and an unchanged file, or the new entry and the whole new file |
| Registry.CustomerRegistry.UpdateCustomerBranding | src/audit_pipeline/customers.py:188-207 | the merged branding in the first entry with the id, or the error and an unchanged file |
| Registry.CustomerRegistry.SetCustomerUrlSalt | src/audit_pipeline/customers.py:434-454 | the encoded salt in the first entry with the id, or the error and an unchanged file |
| Registry.CustomerRegistry.RemoveCustomer | src/audit_pipeline/customers.py:221-234 | the removed entry and the file without it, or the error and an unchanged file |
| Registry.SavedLoads | src/audit_pipeline/customers.py:61-89 | what is saved is loaded again, sorted by id |
| Registry.OthersAreUntouched | src/audit_pipeline/customers.py:132-234 | a change leaves the entry and the salt of every other id as they were, on every file |
| Registry.NamedIsChanged | src/audit_pipeline/customers.py:132-207 | the named entry becomes what the change says |
| Registry.BrandingIsMerged | src/audit_pipeline/customers.py:188-207 | a branding update stores the stripped fields it gives and keeps all others |
| Registry.AddStores | src/audit_pipeline/customers.py:132-185 | an add stores the details as given, and a branding of exactly the stripped non-empty values of the four named fields, or none when none is given |
| Registry.UrlSaltRoundTrip | src/audit_pipeline/customers.py:413-454 | the salt read after it was set, or after the customer was added, is the salt given |
| Registry.MessageIsNarrower | src/audit_pipeline/customers.py:44-243 | what the error message asks for is accepted, and is exactly what is accepted among ids of at most 32 characters that are lower-case letters, digits and hyphens |
| Registry.IdSpelled | src/audit_pipeline/customers.py:44-44 | accepted are 2 to 64 letters, digits, underscores and hyphens with a letter or digit at both ends, and one newline behind them |
| Registry.RotatedTokenIsRefused | src/audit_pipeline/customers.py:376-454 | after a rotation the registry's salt refuses tokens issued under the old one, or HMAC collides |
| Registry.ChangesKeepOrder | src/audit_pipeline/customers.py:82-89 | every change of a registry with unique ids in order leaves one |
| Registry.ReachableIsOrderly | src/audit_pipeline/customers.py:132-234 | every registry reached from none by add, update, remove and set-salt has unique ids in sorted order |
| Registry.RemovedIsGone | src/audit_pipeline/customers.py:221-234 | a removed customer is not found any more and has no salt |
| Registry.ReachableIsUsable | src/audit_pipeline/customers.py:132-234 | every registry reached from none can be read and lists no customer twice, so the theorems on runs apply to it |
| Registry.SaltAfterRun | src/audit_pipeline/customers.py:132-454 | after any run of changes, rejected ones included, the salt of a customer is what the changes that name it make of the one before |
| Registry.TokenAfterRun | src/audit_pipeline/customers.py:338-454 | a token issued under a salt is accepted after a run exactly when the salt then is that one and it is unexpired, or HMAC collides |
| Registry.RevokedForGood | src/audit_pipeline/customers.py:376-454 | a token under a salt that is not the current one stays refused through every run that does not bring its salt back, or HMAC collides |
| Registry.RemovalRevivesLegacyTokens | src/audit_pipeline/customers.py:221-431 | after a removal tokens issued under the empty salt verify until they expire, whatever came before |
| FileLines.JoinedIsSplit | scripts/backfill_bug_class.py:210-211 | joined lines are split into themselves again |
| FileLines.SplitIsJoined | scripts/backfill_bug_class.py:210-211 | a text is its lines joined, all but the last ending in a newline |
| BugClassMigration.FindBoundary | scripts/backfill_bug_class.py:231-236 | the scan stops at the next id line or the end |
| BugClassMigration.InsertBehind | scripts/backfill_bug_class.py:255-269 | one pass puts the line behind the first line that fits, and nowhere else |
| BugClassMigration.PatchBlock | scripts/backfill_bug_class.py:238-277 | a block is left, or gets its line behind `severity:` or else `class:`, with the verdict that is counted |
| BugClassMigration.IdLine | scripts/backfill_bug_class.py:196-206 | two spaces, `- id: `, one word and white space are an id line with that word |
| BugClassMigration.NewLineSpelled | scripts/backfill_bug_class.py:238-277 | in a block without a class, `    bug_class: ` and the class of the id go behind the first `    severity:` line, or, where there is none, the first `    class:` line |
| BugClassMigration.BlockStays | scripts/backfill_bug_class.py:238-277 | a block stays as it is exactly when it has a class, its id has none, or it has neither of the two lines |
| BugClassMigration.PatchNext | scripts/backfill_bug_class.py:218-278 | one turn of the main loop passes over a line or a whole hypothesis and counts it |
| BugClassMigration.PatchFile | scripts/backfill_bug_class.py:208-283 | the loop writes the migrated text; patched counts the added lines |
| BugClassMigration.BlockDealtWith | scripts/backfill_bug_class.py:238-277 | afterwards a block has a class exactly if it had one or was patched, and it is never patched again |
| BugClassMigration.OnlyAddsLines | scripts/backfill_bug_class.py:208-283 | the input lines are a subsequence of the output, the rest are the lines counted |
| BugClassMigration.SecondRunAddsNothing | scripts/backfill_bug_class.py:208-283 | on the lines it has written the script adds nothing |
| BugClassMigration.IdempotentWhenTerminated | scripts/backfill_bug_class.py:208-283 | on newline-terminated files twice is once |
| BugClassMigration.IdempotentIff | scripts/backfill_bug_class.py:208-283 | in general exactly when the last line is not an unterminated line that gets a class behind it |
| EngineFunctionMigration.FindEngineFunction | scripts/add_engine_function_field.py:100-110 | the forward scan finds the field exactly when it stands before the next line that is an id or starts in the first column |
| EngineFunctionMigration.CollectRelevant | scripts/add_engine_function_field.py:113-130 | the scan that keeps its index on `continue` terminates with the text of the `relevant_instructions` blocks |
| EngineFunctionMigration.PatternsSpelled | scripts/add_engine_function_field.py:98-130 | the four patterns, letter by letter |
| EngineFunctionMigration.InstructionsAreRead | scripts/add_engine_function_field.py:84-139 | a hypothesis with one line of instructions gets `    engine_function: ` and the name found in that line behind its `bug_class:` line |
| EngineFunctionMigration.LineToAdd | scripts/add_engine_function_field.py:98-134 | what one turn of the loop adds |
| EngineFunctionMigration.ProcessYamlFile | scripts/add_engine_function_field.py:84-139 | the loop writes the migrated text and counts the added lines |
| EngineFunctionMigration.NoteAt | scripts/add_engine_function_field.py:98-134 | a line is added behind exactly the `bug_class:` lines that no `engine_function:` line follows before the next line that is an id or starts in the first column |
| EngineFunctionMigration.OnlyAddsLines | scripts/add_engine_function_field.py:84-139 | the input lines are a subsequence of the output, the rest are the lines counted, each an `engine_function:` line behind a `bug_class:` line |
| EngineFunctionMigration.SecondRunAddsNothing | scripts/add_engine_function_field.py:84-139 | on the lines it has written the script adds nothing |
| EngineFunctionMigration.EveryBugClassHas | scripts/add_engine_function_field.py:84-139 | afterwards every `bug_class:` line is followed by an engine function before the next line at which the scan stops |
| EngineFunctionMigration.HypothesisByHypothesis | scripts/add_engine_function_field.py:84-139 | a file is migrated piece by piece: what follows an id or any line in the first column changes nothing before it |
| EngineFunctionMigration.EnginesAfter | scripts/add_engine_function_field.py:98-134 | any lines gain one `engine_function:` line for every `bug_class:` line behind which the scan finds none |
| EngineFunctionMigration.FieldTwiceIff | scripts/add_engine_function_field.py:84-139 | a hypothesis, up to the next id line or the end of the file, ends with two `engine_function:` lines exactly when two of its lines are such a line or a `bug_class:` line behind which the scan finds none |
| EngineFunctionMigration.FieldBeforeClass | scripts/add_engine_function_field.py:98-134 | a hypothesis with the field in front of its `bug_class:` line gets it a second time |
| EngineFunctionMigration.FieldBehindColumnOne | scripts/add_engine_function_field.py:98-134 | a hypothesis with the field behind a line in the first column gets it a second time |
| EngineFunctionMigration.IdempotentIff | scripts/add_engine_function_field.py:84-139 | twice is once exactly when the file does not end in an unterminated `bug_class:` line |

## Left out

- SHA-256, HMAC and Ed25519 themselves: hash and HMAC are parameters, HKDF is built from HMAC as in section 2 of RFC 5869, and a signature verifies for the marker it was made for and no other.
- The SQL engines: tables are maps, each `with self._conn()` block is one atomic step, and every other failure of a driver is absent. The "database locked" and missing-table fallback of the hook claim is not modelled.
- HookClaim.HookLease: asks that the row a claimant saw is the row it deletes, because the code reads it before its write transaction opens; what happens otherwise is `WriteBreaksExclusionIff`. A failing `mkdir` after the claim counts as a crash.
- The Postgres version of the hook claim: it deletes every row that is not `ok` without looking at its age.
- The hook log files, the hooks themselves, and the threads that run them.
- JSON encoding and decoding: canonical JSON of details, `verification.json`, log lines and registry entries come in parsed. Non-string ids in the registry are not modelled.
- Authorization.AcceptedOnlyIfAuthorized: takes `authorization.json` to be written by `write_authorization` alone, the skip-code allow-list of the verifier as a parameter, the public key as usable or not, and the files as unchanged while one call reads them. A digest of a file that disappears during a call is not modelled.
- Attestation.RootHexToBytes: non-string inputs are not modelled. Lone surrogates, which `validate` refuses, are not strings of the model.
- The `jelleo-attestation` program, `from_merkle_json`, RPC and key handling.
- `_parse_response` around the hunk repair, and `str.splitlines`' line ends other than `\n`: the rewriters take and give lists of lines. Headers that leave out a count are no headers to the repair, nor to the reader it is compared with. Digits in headers and integers in tokens are ASCII digits.
- Clustering.ClusterStrongFires: labels come normalised and claims as lower-case tokens; `clusters` and `cluster_meta`, which change together, are one list in insertion order. Jaccard similarities are real numbers.
- Clustering.Partition: asks for distinct hypothesis ids, as the cycle's PoC files give them; `RepeatedIdLosesAFire` shows why.
- Pattern classification, the LLM judge, and the shingles of PoC bodies.
- LogTail.Tailer.Feed: chunks are text after decoding and newline translation, which `TailedBytes` models for bytes that are UTF-8; reopening loses what was appended before the file was opened at its end. Which cycle is the latest one is not modelled.
- EventHub.Hub.Publish: the set of queues is walked in any order; the write to the client after a get, the heartbeat text and the overflow message are not modelled.
- UrlToken.TokenIsBound: the decoder is lenient, so different texts can carry one tag; what is bound is the tag and the expiry that were read. Python's limit on the digits of an integer is not modelled.
- Registry.CustomerRegistry.AddCustomer: name, protocol, tier, contact and similar fields are stored as given, and the random salt is a parameter. The customer directory and key files are not modelled.
- BugClassMigration.PatchFile: the table of classes is a parameter, each class without a newline.
- EngineFunctionMigration.ProcessYamlFile: the name extraction is a parameter whose results hold no newline; `\w` and `\s` follow ASCII word characters and Python's white space.
- Severity rules, `from_hunt_outcome`, scoping filters and spend sums: finite tables and simple filters that would add only easy members.
- HTML, SMTP, webhooks, the command line, deployment, cargo, Kani and LLM calls.
