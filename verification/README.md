# Verified model of the Nawabari coordinator

Nawabari coordinates sessions that work in one repository. A session owns claims: resource globs held in
mode read, write or exclusive-write. Claims change through generation-checked transactions, operations are
authorized against them, a claim can be handed to another session, and a bounded graph shows where claims
and planned work overlap. This project models that logic in Dafny and proves what it guarantees.

`dafny verify dfyconfig.toml` checks everything.

## What is proved, in one line each

- Both overlap searches terminate, visit a bounded number of states, never miss a common path, and on patterns
  without empty segments decide exactly "some concrete path matches both patterns", hence the same relation. A
  claim is compared exactly with every text whatsoever if and only if it has no `**`.
- Every run of transactions from an empty claim set keeps each session's claims apart and lets claims of
  different sessions meet only if their modes are compatible or both are writes of one sharing group.
- A transaction is accepted if and only if it meets no offence, is refused for its first, and leaves the session
  exactly the claims its request asks for and says it keeps, all in terms of the request as it is given.
- The generation is a faithful version of the claim set; replays change nothing; the order of deltas is
  irrelevant; authority under live execution never shrinks.
- An operation is permitted if and only if its listed, active session holds a sufficient, undisputed claim on every
  path; who may commit, mutate a branch, push or clean up on a wildcard-free path keeps everyone else off it.
- On a path, exclusive authorization excludes every other session if and only if the path has no wildcard.
- The request pool neither loses, alters nor doubles a request under any events, with failures that re-enter the
  scheduler: workers are handed requests as they were accepted, each once, and are stopped only when everything
  accepted is settled.
- A handoff is allowed if and only if both sessions, the claim and the scope are as they must be, stated without
  the validation; every other answer names its first offence, and every run ends as its first telling answer says.
- In every interleaving of handoffs, retries and other registry writers, with answers that get lost, a transfer
  follows a fence, full quiescence and an unchanged second read, moves exactly the one claim, and happens at most
  once per operation. A client reports a move exactly when its commit transferred and the answer arrived, and no
  two report the move of one operation; a retry of a transfer whose answer was lost moves nothing.
- A report that the source keeps its claim, or that the destination has it already, can be relied on if and only if
  it names the claim and the registry is still at the generation of the report.
- With steps and readings at their moments and drain answers from lawful runtimes, a drain ended before every
  transfer, and nothing of the source runs at the commit if and only if the epoch of the fence still lasts.
- Transactions, session changes and handoffs together keep one orderly claim set, and equal generations mean equal
  claims across all of them.
- A clean overlap graph means: complete, and no path is declared by two sessions in one repository. Complete or
  not, its edges are the meetings among the pairs it looked at, and what it left out is counted over its input.
- An observation's token holds exactly the sessions asked for and exactly their claims. A stable one describes the
  registry during its whole window if and only if the revision is readable; following cursors yields every row once; the argument parser accepts exactly its grammar; session identifiers
  sort by time exactly as far as the times do modulo 2^48 and lose none of their 74 random bits.

## How to read it

| module | role |
|---|---|
| Wrappers, Strings, Sorting, Selections, Worklist | shared datatypes, splitting, stable sorting, keeping elements of a list, worklist searches |
| GlobLanguage, Samples | what a glob means; building names and paths that match |
| ClaimSegments, ClaimPaths, ClaimExactness | the overlap search of the claims, and for which patterns it is exact |
| CoordinationSegments, CoordinationPaths | the second overlap search |
| Resources, ResourceClaims | canonical resources, claims, conflicts |
| CoordinationTransactions, ClaimMaps, ClaimChecks, CoordinationPlanner | a transaction as stages, and as the loops that compute them |
| ClaimSets, Generations, Replays, TransactionRuns | invariants of plans and of whole runs |
| RequestMeaning, RequestOutcomes | what a request asks for and what is wrong with it; which plan it gets |
| Authorization, AuthorizationMeaning, MutualExclusion | authorizing an operation, when it is permitted, and what two authorizations cannot both be |
| PoolState, RequestPool | the pool as a value with its moves, and as the mutable class |
| ResourceHandoff, HandoffProtocol, HandoffCommit, HandoffExecution | handoff: validation, one run, the registry's commit, fence and drain |
| HandoffConditions, HandoffOutcomes, DrainAnswers | exactly when a handoff is allowed, how a run ends, and what a drain answers |
| HandoffRuns, HandoffReports | all interleavings of handoffs, and what their reports say |
| HandoffWitness, HandoffGuarantees | runs in full, and exactly which reports can be relied on |
| HandoffDrains | the interleavings with fences and drains of real runtimes, step by step in time |
| MixedRuns | transactions, session changes and handoffs over one registry |
| Selectors, ResourceCoordination, OverlapGraph | selectors, nodes, the bounded graph |
| GraphMeaning, PairCounts, GraphCounts | what a graph means, and what its edges and counts say about its input |
| CoordinationEvidence, EvidenceMeaning | double-read observation with retries, and what its token says |
| CoordinationView | the paged file/session matrix |
| Cli, CliGrammar | the delta argument parser and its language |
| Identities, ClaimIdentities, SessionId | identity encodings and UUIDv7 |

## Assumptions

- Characters stand for code units. Resources are canonicalized by syntax alone: the worktree, symbolic links
  and Unicode normalization can only refuse more. Comparison canonicalization is then the identity.
- The digests behind claim identifiers are collision free: an identifier stands as the text that is hashed.
  The digest of a derived handoff identifier is a parameter; only the text below it is proved injective.
- Coordination evidence is honest where a theorem says so: it speaks about the pair it was asked about.
  `ResourceClaims.HonestyIsNeeded` shows why, since the conflict test reads the claims inside the evidence.
- The clock, random bytes, worker answers, runtime readings and registry writes of other programs are
  parameters, traces or nondeterministic choices. Maps of the program are maps here, its sort calls are a
  stable sort by the same key.
- Snapshots of transactions and authorizations hold canonical claims, as the registry's own schema checks demand
  before these functions see them. Execution resources and scope selectors are arbitrary texts where the program
  leaves them so.
- What a request gets (`RequestOutcomes`) is said of coordinated claim sets, the only ones a run can reach
  (`TransactionRuns.RunsStayCoordinated`, `MixedRuns.MixedRunsStayOrderly`).
- Drain theorems assume a lawful runtime (`HandoffExecution.Lawful`): epochs never fall, closed admission lasts as
  long as its epoch and starts nothing, what runs is on record, and an execution seen empty is empty.
- In mixed runs the registry is written by transactions, session changes and handoffs only; in the runs of
  handoffs alone, by anyone who raises the generation whenever claims change.

## Where the code differs from what it says

- `canonicalizeConcretePath` promises that `*` and `?` are literal in a concrete path
  (src/resource-claims.ts:289-306), but authorization hands the path to the glob search, which reads it as a
  pattern. `MutualExclusion.ExclusionIffWildcardFree` gives the exact consequence.
- A handoff that ends blocked or unresolved reports `sourceRetained: true` (src/resource-handoff.ts:990-1036), and so
  does one that ends idempotent by validation (src/resource-handoff.ts:937, 970). The source may hold nothing all the
  same, for three reasons: the commit threw after its rename (`HandoffWitness.LostAnswerRun`), someone else removed
  the claim before the handoff ended (`HandoffWitness.StaleRun`), or it was never there
  (`HandoffWitness.NothingHeldRun`). `HandoffReports.SourceAfterStepIff` says for every step of a client, the ones that
  end it included, when its source holds the claim afterwards; `HandoffGuarantees.RetainedIsTrueIff` says exactly which
  reports are true in every run.
- An idempotent answer says that the handoff was done, not that the destination holds the claim: the derived
  operation identifier leaves the generation out (src/resource-handoff.ts:613-621), so after the claim came back a
  new request is answered from the record of the old one (`HandoffWitness.HandedBackRun`).
  `HandoffReports.UnchangedNamesWhatStands` and `HandoffGuarantees.DoneMeansHeldIff` say what the answer does mean.

## Exact limits of what the code guarantees

- The session records of a stable token are protected by the registry revision alone, and an unreadable revision
  does not stop a token from being stable (src/resource-coordination-evidence.ts:411-446).
  `CoordinationEvidence.HeldIffRevisionReadable`: every stable token describes the registry during its whole window
  if and only if the revision could be read.
- The commit of a handoff receives the fence and does not look at it (src/session-registry.ts:8351-8482).
  `HandoffDrains.MovesIdleIffEpochHeld`: over all interleavings, nothing of the source runs when its claim moves if and
  only if the epoch is then still the fence's.
- Closing admission is a registry write too (src/session-registry.ts:3049-3083), so a client may end without a fence
  while admission of its source is closed. `HandoffDrains.UnfencedIff` says exactly when, `HandoffDrains.LostFenceRun`
  is such a run, `HandoffDrains.FenceAfterLostFence` says that asking again gets a fence.
- An observation whose two readings differ is tried again only when all its files could be read
  (src/resource-coordination-evidence.ts:442-445). `CoordinationEvidence.StaleIsReturnedIff` says exactly when a
  caller receives a stale token; `CoordinationEvidence.StaleAtOnce` gets one from the first attempt with any number
  of retries left.
- Session identifiers hold 48 bits of a timestamp that may have 53 (src/session-id.ts:10-20).
  `SessionId.OrderIsByRemainder` gives their order for any two timestamps.
- The search of the claims can accept two texts without a common path: a `**` absorbs an empty segment
  (src/resource-claims.ts:697-742). `ResourceClaims.ExactForAnyTextIff`: a claim is compared exactly with every text if
  and only if it has no `**`. `ResourceClaims.ExactForAnyResourceIff`: a text is compared exactly with every claim if
  and only if it has no empty segment. Such texts come as the resources of executions, which are not validated:
  `ClaimChecks.BusyIsAlwaysRealIff` says for which claims a refusal to drain is always about a real overlap. Scope
  selectors may end in an empty segment, but are compared exactly, since a handoff's resource has no wildcards.

## Model

| member | source | states |
|---|---|---|
| ClaimSegments.SegmentPatternsOverlap | src/resource-claims.ts:744-772 | true exactly when some non-empty name matches both segments; visits at most 2(m+1)(n+1) states |
| ClaimSegments.NothingMissed | src/resource-claims.ts:744-772 | a finished search has visited no state whose remaining patterns still have a common name |
| ClaimPaths.Search | src/resource-claims.ts:697-742 | on any split patterns finds every common path and accepts exactly what its moves can reach; where no empty segment can be absorbed, true exactly when a concrete path matches both; visits at most 2(m+1)(n+1) states |
| ClaimPaths.AcceptedIsOverlap | src/resource-claims.ts:697-742 | what the search accepts is a common path if neither pattern has an empty segment, or one has neither an empty segment nor a `**` |
| ClaimExactness.ExactAgainstAllIff | src/resource-claims.ts:697-742 | on either side, a pattern is compared exactly with every text if and only if it has neither an empty segment nor a `**` |
| ClaimExactness.ExactAgainstPatternsIff | src/resource-claims.ts:697-742 | on either side, a text is compared exactly with every pattern without empty segments if and only if it has none |
| ClaimExactness.AcceptsIsSymmetric | src/resource-claims.ts:697-742 | on any two texts the search answers the same either way round, although its moves are not tried in a symmetric order |
| ClaimPaths.OverlapIsAccepted | src/resource-claims.ts:697-742 | on any input a common path is accepted |
| ClaimPaths.NothingMissed | src/resource-claims.ts:697-742 | completeness of the path search, although `consumed` may be set without advancing |
| ClaimPaths.SuccSound | src/resource-claims.ts:707-740 | every pushed state that can still be completed makes its parent completable |
| CoordinationSegments.SegmentPatternsOverlap | src/resource-coordination.ts:606-629 | true exactly when some string, possibly empty, matches both segments |
| CoordinationSegments.StringsMeetIffOverlap | src/resource-coordination.ts:606-629 | on non-empty segments that is the same as a common non-empty name |
| CoordinationPaths.Search | src/resource-coordination.ts:577-604 | true exactly when some run of strings matches both patterns; visits at most (m+1)(n+1) states |
| CoordinationPaths.EnginesAgree | src/resource-coordination.ts:577-629 | the search without the flag decides the relation of the search with it, on all patterns without empty segments |
| CoordinationPaths.EnginesPartOnEmptySegments | src/resource-coordination.ts:577-629 | with empty segments the two relations differ |
| Resources.CanonicalizationIsIdentity | src/resource-claims.ts:495-531 | canonicalization never rewrites, and what it accepts has only non-empty segments and no NUL |
| Resources.OverlapIsSymmetric | src/resource-claims.ts:697-742 | overlap is symmetric |
| Resources.OverlapIsReflexive | src/resource-claims.ts:352-356 | every canonical resource overlaps itself |
| Resources.ConcreteOverlap | src/resource-claims.ts:358-364 | a wildcard-free path overlaps a pattern exactly when the pattern matches it |
| ResourceClaims.ClaimsOverlap | src/resource-claims.ts:352-356 | the equality shortcut gives what the search gives: a common concrete path |
| ResourceClaims.ResourceMatchesClaim | src/resource-claims.ts:358-364 | gives what the search accepts, for any text as resource |
| ResourceClaims.SelectsIsOverlap | src/resource-claims.ts:352-364 | the answer is overlap if neither text has an empty segment, or one has neither an empty segment nor a `**` |
| ResourceClaims.SelectsEitherWay | src/resource-claims.ts:352-364 | on any two texts the answer is symmetric and an overlap is never missed |
| ResourceClaims.ExactForAnyTextIff | src/resource-claims.ts:358-364 | a canonical claim is compared exactly with every text if and only if it has no `**` |
| ResourceClaims.ExactForAnyResourceIff | src/resource-claims.ts:358-364 | a text is compared exactly with every canonical claim if and only if it has no empty segment |
| ResourceClaims.ClaimsConflict | src/resource-claims.ts:398-435 | claims conflict when they meet, no evidence permits it and the modes are incompatible |
| ResourceClaims.PermitsIff | src/resource-claims.ts:404-435 | evidence lets two writes coexist if and only if nothing changed since, both are in one group, and both were found where they say in different worktrees |
| ResourceClaims.CompatibleIff | src/resource-claims.ts:97-103 | two reads stand together, and a read beside a write; nothing else does |
| ResourceClaims.NoConflictIsSafe | src/resource-claims.ts:398-435 | with honest evidence, claims that pass the test are compatible by mode or writes of one group in different worktrees |
| ResourceClaims.HonestyIsNeeded | src/resource-claims.ts:398-405 | evidence about another pair lets two exclusive claims on one resource pass |
| ClaimIdentities.ClaimIdentityIsInjective | src/resource-claims.ts:186-197 | session, resource, mode and sharing can be read back from the identity text, with or without sharing |
| ClaimMaps.ReplaceClaims | src/coordination-transactions.ts:508-532 | the loop leaves exactly one settled claim per desired resource |
| ClaimMaps.AcquireClaims | src/coordination-transactions.ts:508-565 | adds each desired claim that is not held, refuses a contradiction, keeps the rest |
| ClaimMaps.ApplyDeltaList | src/coordination-transactions.ts:508-565 | the loop is removing all releases and then settling all upserts |
| ClaimMaps.MaterializeNextClaims | src/coordination-transactions.ts:508-565 | the loops compute the next claims of the specification for all four kinds |
| ClaimMaps.NormalizedIsDistinct | src/coordination-transactions.ts:389-506 | a normalized request names no resource twice |
| ClaimChecks.CheckCompleteClaimSet | src/coordination-transactions.ts:567-607 | own overlap, then conflict with another session, then foreign repository, each found if and only if present |
| ClaimChecks.CheckExecutionDrain | src/coordination-transactions.ts:609-654 | refuses exactly when some shrinking claim is touched by an unstopped managed execution of its session; no real overlap passes, and where everything is compared exactly every refusal is about one |
| ClaimChecks.BusyIsReal | src/coordination-transactions.ts:622-654 | an execution that really shares a path with a claim is always seen; the converse holds for claims without `**` and for texts without empty segments |
| ClaimChecks.BusyIsAlwaysRealIff | src/coordination-transactions.ts:622-654 | whatever executions name, a claim is found busy for real overlaps alone if and only if it has no `**` |
| CoordinationPlanner.SortedClaims | src/coordination-transactions.ts:508-565 | however the map yields its values, the sorted list is the same |
| CoordinationPlanner.PlanCoordinationTransaction | src/coordination-transactions.ts:174-212 | the loops compute the specified plan or the error of the first stage; `RequestOutcomes` says what that plan is, request by request |
| CoordinationPlanner.ApplyCoordinationTransaction | src/coordination-transactions.ts:215-231 | commits once, after all checks, and only a plan that changes something |
| RequestMeaning.RequestsAreRead | src/coordination-transactions.ts:389-506 | a request is refused for its first offence and otherwise read for what it says: each resource in its own mode, with its own sharing or else the request's |
| RequestOutcomes.PlansAreAnswered | src/coordination-transactions.ts:174-212 | a listed session's request is accepted if and only if it meets no offence, from inactive owner and stale generation to overlap, conflict and undrained executions, and refused for the first |
| RequestOutcomes.NobodyIsAnswered | src/coordination-transactions.ts:360-368 | an unusable snapshot or request is an invalid operation; a session that is not listed is not found |
| RequestOutcomes.AcceptedIsLeft | src/coordination-transactions.ts:192-212 | an accepted plan is the listed owner's and leaves it exactly what it is to hold: what stays of its claims, a new claim under its own identity for whatever is asked for and was not there, and nothing else |
| RequestOutcomes.WhatIsAskedIsGranted | src/coordination-transactions.ts:508-565 | for each thing asked for the session holds one claim on that resource, in that mode, shared like that |
| RequestOutcomes.ChangesTellTheTruth | src/coordination-transactions.ts:656-697 | the list of changes names every resource held before or after, once and in order, with the claims that stood and stand there and the right kind |
| ClaimSets.PlanKeepsCoordination | src/coordination-transactions.ts:174-212 | an accepted plan keeps the coordination invariant |
| ClaimSets.CheckedSetIsCoordinated | src/coordination-transactions.ts:567-607 | the one check of the session's next claims is enough for the invariant of the whole set |
| ClaimSets.OthersAreUntouched | src/coordination-transactions.ts:192-212 | a plan leaves every other session's claims as they were |
| ClaimSets.OneClaimPerResource | src/coordination-transactions.ts:567-607 | under the invariant a session holds at most one claim per resource |
| Generations.GenerationCountsChanges | src/coordination-transactions.ts:192-211 | the generation rises by exactly one if and only if the claim set changes |
| Generations.ChangesSeeEveryDifference | src/coordination-transactions.ts:656-697 | the change list reports a change exactly when the session's claims differ |
| Generations.IdempotentPlanKeepsTheList | src/coordination-transactions.ts:192-211 | an idempotent plan returns the same list, order included |
| Replays.ReplayIsIdempotent | src/coordination-transactions.ts:174-212 | an accepted request replayed on its result, with any refreshed intent and timestamp, is accepted and changes nothing |
| Replays.NextClaimsAreStable | src/coordination-transactions.ts:508-565 | asking again for the same thing finds it there, whatever the timestamps |
| Replays.DeltaOrderIsIrrelevant | src/coordination-transactions.ts:423-455 | any permutation of the deltas gives the same plan |
| Replays.NormalizingDeltas | src/coordination-transactions.ts:423-455 | a delta list is accepted exactly when each delta is valid and no resource recurs |
| TransactionRuns.RunsStayCoordinated | src/coordination-transactions.ts:174-231 | every run from an empty claim set satisfies the invariant and stays sorted |
| TransactionRuns.EqualGenerationsEqualClaims | src/coordination-transactions.ts:764-784 | equal generations at two moments of a run mean equal claims |
| TransactionRuns.GenerationsNeverReturn | src/coordination-transactions.ts:192-211 | the generation never falls and stands still only while the claims do |
| TransactionRuns.OthersCannotTouch | src/coordination-transactions.ts:174-231 | no transactions of other sessions change a session's claims |
| TransactionRuns.LiveAuthorityNeverShrinks | src/coordination-transactions.ts:609-654 | what a claim grants stays granted while a live execution may touch it, and a write claim keeps its group |
| Authorization.AuthorizeOnePath | src/coordination-transactions.ts:283-326 | decision on one path: conflict, insufficient mode or missing claim are told apart, only the first granting claim is checked |
| Authorization.AuthorizeCoordinationOperation | src/coordination-transactions.ts:238-337 | the first denied path decides; an allowed operation has every path granted; `AuthorizationMeaning` says when, operation by operation |
| AuthorizationMeaning.DemandsAreMet | src/operation-authorization.ts:50-85 | source writes and staging need more than a read, commits, branch mutations, pushes and cleanups an exclusive claim, and there are no other operations |
| AuthorizationMeaning.PermittedIff | src/coordination-transactions.ts:238-337 | an operation is permitted if and only if it exists, its session is listed, active and of the repository, 1 to 4096 canonical paths are given, and on each the session's first sufficient claim is disputed by nobody |
| AuthorizationMeaning.DenialsAreInOrder | src/coordination-transactions.ts:238-337 | what is not permitted is denied with the code of its first offence |
| AuthorizationMeaning.PermittedRestsOn | src/coordination-transactions.ts:283-326 | whoever is permitted anything on a path holds a sufficient, undisputed claim on it, exclusive for the exclusive operations |
| AuthorizationMeaning.ExclusiveOperationsExclude | src/operation-authorization.ts:50-85 | who may commit, mutate a branch, push or clean up on a wildcard-free path holds an exclusive claim on it, and no other session is permitted anything there |
| AuthorizationMeaning.AllowedNamesTheClaims | src/coordination-transactions.ts:320-337 | an allowed answer names each path with the identifiers of exactly the claims that cover it |
| MutualExclusion.RestsOn | src/coordination-transactions.ts:283-326 | an authorization rests on a matching, sufficient claim that conflicts with no other session |
| MutualExclusion.ExclusiveExcludes | src/coordination-transactions.ts:238-337 | exclusive authorization on a wildcard-free path excludes every other session's authorization for anything |
| MutualExclusion.SharedWritesAreGrouped | src/coordination-transactions.ts:238-337 | two sessions write one path only inside one evidenced sharing group |
| MutualExclusion.OneOwnClaimMatches | src/coordination-transactions.ts:283-326 | under the invariant at most one own claim matches, so checking the first is checking all |
| MutualExclusion.ExclusionIffWildcardFree | src/resource-claims.ts:289-306 | with any honest evidence, exclusion holds on a canonical path exactly when it has no wildcard |
| RequestPool.ControlRequestPool.constructor | src/control-server-request-pool.ts:337-352 | a new pool is empty, accepting and balanced |
| RequestPool.ControlRequestPool.Dispatch | src/control-server-request-pool.ts:360-378 | refuses exactly when closed, without live workers or full; otherwise accepts the request as it is under the next identifier and leaves no idle worker beside waiting work |
| RequestPool.ControlRequestPool.Schedule | src/control-server-request-pool.ts:518-534 | terminates through re-entrant failures and leaves no ready idle worker beside waiting work |
| RequestPool.ControlRequestPool.PostMessage | src/control-server-request-pool.ts:518-534 | posts to a worker the request its slot holds |
| RequestPool.ControlRequestPool.FailSlot | src/control-server-request-pool.ts:489-509 | the failed slot's request is answered once, with the last worker everything waiting is; nothing is lost |
| RequestPool.ControlRequestPool.FailQueue | src/control-server-request-pool.ts:500-507 | with no worker left every waiting request is answered |
| RequestPool.ControlRequestPool.FinishWork | src/control-server-request-pool.ts:511-516 | counts one request off, and the last one releases the waiting close |
| RequestPool.ControlRequestPool.OnReady | src/control-server-request-pool.ts:444-447 | readiness does not schedule: work conservation survives exactly when nothing waits for this slot |
| RequestPool.ControlRequestPool.OnReply | src/control-server-request-pool.ts:453-487 | only an answer to the slot's own request settles it |
| RequestPool.ControlRequestPool.OnExit | src/control-server-request-pool.ts:433-439 | an exit is a failure unless the pool is stopping, and then settles nothing |
| RequestPool.ControlRequestPool.Close | src/control-server-request-pool.ts:380-393 | ends acceptance; workers stop at once exactly when nothing is outstanding |
| RequestPool.ControlRequestPool.StartWorkers | src/control-server-request-pool.ts:395-416 | creates all workers or closes the pool |
| RequestPool.Run | src/control-server-request-pool.ts:337-535 | any events keep the books, never unsettle, repost or forget anything, and keep work conservation once no worker has to become ready |
| PoolState.StartingKeepsBalance | src/control-server-request-pool.ts:518-534 | moving the head of the queue onto a slot keeps every identifier in exactly one place, every request as it was accepted, and posts in dispatch order |
| PoolState.SettledAtMostOnce | src/control-server-request-pool.ts:443-516 | no request is settled twice, and none that was never accepted |
| PoolState.StoppingMeansAllSettled | src/control-server-request-pool.ts:380-393 | workers are terminated only after every accepted request was settled exactly once |
| PoolState.StartedIsNotWaiting | src/control-server-request-pool.ts:518-534 | a posted request never waits again |
| PoolState.PostsAreRequests | src/control-server-request-pool.ts:518-534 | whatever a worker was handed is a request as it was accepted, and none is handed out twice |
| PoolState.ActiveWasPosted | src/control-server-request-pool.ts:518-534 | the request on a slot is the one accepted under its identifier, and it was handed to that slot's worker |
| Identities.LengthPrefixedIsInjective | src/resource-handoff.ts:613-621 | the length-prefixed text is uniquely decodable on lists of arbitrary strings |
| ResourceHandoff.AssertSnapshot | src/resource-handoff.ts:676-789 | accepts exactly snapshots whose sessions (scopes included), claims and history are well-formed, owned and free of duplicates |
| HandoffProtocol.ValidateResourceHandoff | src/resource-handoff.ts:225-406 | computes the specified verdict, first offence first; `HandoffConditions` says which that is |
| HandoffConditions.NormalizedIsAsAsked | src/resource-handoff.ts:623-674 | a request is usable exactly when its texts, generation and resource are, and is normalized to what was asked |
| HandoffConditions.AllowedIff | src/resource-handoff.ts:225-406 | a handoff is allowed if and only if the registry is believed and at the expected generation, the operation is new, both sessions are listed, active and of the repository in different worktrees, the source holds exactly one claim on the resource in its own worktree, the destination none that overlaps, and its scope admits the mode and denies nothing |
| HandoffConditions.OffencesAreInOrder | src/resource-handoff.ts:225-406 | a believed registry is answered with the verdict of the first offence |
| HandoffConditions.ErrorsAreCorruption | src/resource-handoff.ts:225-406 | validation fails only over a registry that is not believed or lists a claim twice |
| HandoffProtocol.FenceAndDrain | src/resource-handoff.ts:428-508 | goes on exactly with a fence for this operation and full quiescence at its epoch |
| HandoffProtocol.AfterCommit | src/resource-handoff.ts:530-610 | a move is reported exactly on an acceptable transfer: canonical destination, no source, generation one higher |
| HandoffProtocol.HandoffResources | src/resource-handoff.ts:413-610 | the commit is called exactly when every earlier answer supports it, last and at most once |
| HandoffOutcomes.RunsEnd | src/resource-handoff.ts:413-610 | every run ends as its first telling answer says: status, code, generations, epoch and claims, for every answer of every stage |
| HandoffCommit.CommitTransfers | src/session-registry.ts:8351-8482 | a committed transfer removes the source claim, adds the destination claim in the requested mode without sharing under the destination's own identity, keeps all others, raises the generation by one and records the operation |
| HandoffConditions.TransfersIff | src/session-registry.ts:8351-8482 | the commit transfers if and only if the handoff is still allowed at the generation that was read, both sessions are as read, and the claims after the move may stand together |
| HandoffCommit.CommitKeepsCoordination | src/session-registry.ts:12477-12547 | the registry's check of all pairs keeps the claim set coordinated, for any input it accepts |
| HandoffCommit.TransferIsAcceptable | src/resource-handoff.ts:1065-1085 | the client accepts every transfer the registry really made |
| HandoffRuns.RunsKeepInv | src/resource-handoff.ts:413-610 | every interleaving of clients, lost answers and other writers keeps the invariant |
| HandoffRuns.EveryTransferIsSound | src/resource-handoff.ts:413-610 | each transfer followed fence and quiescence, acted on the very claims first validated, and met every condition of an allowed handoff at both readings and at the commit |
| HandoffRuns.TransfersAtMostOnce | src/resource-handoff.ts:232-261 | retries of an operation, however interleaved, transfer at most once |
| HandoffRuns.MovedIffTransferredAndHeard | src/resource-handoff.ts:530-610 | a client reports a move exactly when its commit transferred and the answer arrived; a transfer leaves it moved or unresolved |
| HandoffRuns.EveryMoveIsATransfer | src/resource-handoff.ts:530-610 | in every run a reported move has its transfer, and no two clients report the move of one operation |
| HandoffRuns.LostAnswerHidesTheMove | src/resource-handoff.ts:538-588 | if the answer is lost after the write, the client is unresolved and says the source keeps its claim, while the claim is gone and the destination has it |
| HandoffReports.SourceAfterStepIff | src/resource-handoff.ts:413-610 | after any step of a client, whatever it reports and whatever answer got lost, its source holds the claim if and only if it held it before and the step was not a commit that transfers |
| HandoffReports.EveryReportIsTrue | src/resource-handoff.ts:413-610 | in every run and at every later moment, a claim that a report names stands if the registry is still at the report's generation |
| HandoffReports.UnchangedNamesWhatStands | src/resource-handoff.ts:232-261 | when a client is told that the operation was done, source and destination each hold the claim if and only if the answer names it |
| HandoffGuarantees.RetainedIsTrueIff | src/resource-handoff.ts:985-1036 | a report that the source keeps its claim is true in every run if and only if it names the claim and the registry is still at its generation |
| HandoffGuarantees.DoneMeansHeldIff | src/resource-handoff.ts:232-261 | an idempotent answer means that the destination holds the claim, in every run, if and only if it names that claim and the registry is still at its generation |
| HandoffRuns.RetryFindsItDone | src/resource-handoff.ts:225-261 | a retry of a recorded operation ends with its first read, moves nothing, and says unchanged exactly when the registry can be believed |
| HandoffRuns.RetriesMoveNothing | src/resource-handoff.ts:232-261 | in every run, asking again for a transferred operation moves nothing and reports it as unchanged |
| HandoffRuns.CommittingIsProtocol | src/resource-handoff.ts:413-610 | a client about to commit is where one run of the protocol calls the commit, with that input, and ends as that run does |
| HandoffRuns.EveryResultIsARun | src/resource-handoff.ts:413-610 | whatever a client ends with in an interleaving is a result of one run of the protocol |
| HandoffWitness.LostAnswerRun | src/registry/repository-state-boundary.ts:113-131 | a run from one held claim to a moved claim whose client is unresolved and says the source keeps it |
| HandoffWitness.RetryAfterLostAnswer | src/resource-handoff.ts:232-261 | the retry in that run reports the operation as done, with the destination's claim, at the new generation |
| HandoffWitness.StaleRun | src/resource-handoff.ts:538-588 | a run without a lost answer whose client is told that the source keeps a claim someone else removed |
| HandoffWitness.NothingHeldRun | src/resource-handoff.ts:985-1013 | a run whose client is told that the source keeps a claim it never had |
| HandoffWitness.HandedBackRun | src/resource-handoff.ts:232-261 | a run in which a new request after the claim came back is answered as done while the source holds the claim |
| HandoffDrains.EveryTransferWasDrained | src/resource-handoff.ts:413-528 | with steps in time and drain answers of lawful runtimes, a drain of the source ended before every transfer: nothing ran then, nor since while the epoch lasted |
| HandoffDrains.MovesIdleIffEpochHeld | src/session-registry.ts:8351-8482 | over all interleavings, nothing of the source runs at the moment its claim moves if and only if the epoch is then still the fence's |
| HandoffDrains.OneStepOneTransfer | src/session-registry.ts:8351-8482 | a step changes the log of transfers exactly if it is a commit that transfers, by that one transfer |
| HandoffDrains.UnfencedIff | src/resource-handoff.ts:428-456 | a client ends at its fence exactly when none was handed out, and admission is closed without its knowledge exactly when the answer was lost after the write |
| HandoffDrains.FenceAfterLostFence | src/resource-handoff-execution.ts:37-48 | asking again after a lost answer hands out a fence at the epoch after |
| HandoffDrains.LostFenceRun | src/registry/repository-state-boundary.ts:113-131 | a run that ends at its fence while admission of the source is closed |
| MixedRuns.MixedRunsStayOrderly | src/session-registry.ts:1868-1888 | transactions, session changes and handoffs in any order keep the claims coordinated and sorted, and the generation stands still only while they do |
| MixedRuns.EqualGenerationsEqualClaims | src/session-registry.ts:8351-8482 | equal generations at two moments of a mixed run mean equal claims |
| MixedRuns.TransactionKeepsOrder | src/session-registry.ts:1868-1888 | any transaction keeps the claim set orderly and is a change the handoffs allow for |
| MixedRuns.MixedRunIsHandoffRun | src/session-registry.ts:1868-1888 | every run of transactions, session changes and handoffs is, step for step, a run of handoffs among other writers |
| MixedRuns.MixedTransfersAreSound | src/resource-handoff.ts:413-610 | beside transactions every transfer is sound and no operation transfers twice |
| MixedRuns.OthersCannotTouch | src/session-registry.ts:8351-8482 | only its own transactions and handoffs that name it change what a session holds |
| HandoffExecution.FenceSession | src/resource-handoff-execution.ts:37-48 | a fence is handed out exactly when admission was closed and the answer arrived, and carries the epoch at which it is closed; without a fence, admission is untouched or closed at the next epoch; what runs is left running |
| HandoffExecution.Await | src/resource-handoff-execution.ts:49-102 | gives the specified answer from readings at different moments |
| HandoffExecution.QuietIffProven | src/resource-handoff-execution.ts:49-102 | that answer is accepted as quiet exactly when every single reading supports it |
| DrainAnswers.AnswerMeans | src/resource-handoff-execution.ts:49-102 | "active" if and only if a look at the executions found one occupied, "quiescent" if and only if it found all empty, "unknown" otherwise; the answer names exactly the executions seen occupied and those that could not be told, or all on record |
| HandoffExecution.QuiescenceIsSimultaneous | src/resource-handoff-execution.ts:49-102 | readings one after the other prove that nothing runs at the end of the drain |
| HandoffExecution.EpochHeldThroughout | src/resource-handoff-execution.ts:49-102 | a quiet answer means that the epoch never moved during the drain, although it is read only at both ends |
| HandoffExecution.QuietWhileTheEpochLasts | src/resource-handoff-execution.ts:49-102 | from the end of a quiet drain nothing runs while the epoch is the fence's |
| HandoffExecution.CommitIsSafeIffEpochHeld | src/session-registry.ts:8351-8482 | nothing runs at the commit, whatever else happened, if and only if the epoch is still the fence's |
| Selectors.PrefixIsSegmentPrefix | src/resource-coordination.ts:439-441 | the string test is the prefix relation on segments |
| Selectors.NamespaceSelectorOverlap | src/resource-coordination.ts:429-437 | with a namespace on either side, true exactly when the path sets intersect |
| Selectors.ResourceSelectorsOverlap | src/resource-coordination.ts:209-217 | exact, glob and namespace selectors overlap exactly when some concrete path is named by both |
| ResourceCoordination.BuildNodes | src/resource-coordination.ts:301-338 | the loops build the specified nodes: one per claim with its intents, one per unattached intent |
| ResourceCoordination.FindOverlapFacts | src/resource-coordination.ts:360-406 | each fact is set exactly when some pair of selectors or intents shows it |
| ResourceCoordination.OverlappingIffMeet | src/resource-coordination.ts:360-406 | a pair counts as overlapping exactly when both nodes name a common path |
| ResourceCoordination.ClaimEngineAgrees | src/resource-coordination.ts:367-383 | asking the claim engine about claim selectors never hides an overlap |
| OverlapGraph.LimitSelectors | src/resource-coordination.ts:523-540 | keeps nodes while they fit and counts the selectors of the others |
| OverlapGraph.FindCandidates | src/resource-coordination.ts:236-250 | the nested loops collect the candidate pairs in order |
| OverlapGraph.CandidatesHave | src/resource-coordination.ts:236-250 | no two nodes of different sessions that may share a repository are passed over |
| OverlapGraph.PairsAreNodes | src/resource-coordination.ts:236-250 | only such pairs of nodes are collected |
| OverlapGraph.NodesAre | src/resource-coordination.ts:301-338 | every node comes from a claim or an unattached intent, and every one of those has its node |
| OverlapGraph.BuildResourceOverlapGraph | src/resource-coordination.ts:220-287 | builds the specified graph for any bounds |
| GraphMeaning.CompleteIffNothingIsLeftOut | src/resource-coordination.ts:227-275 | complete exactly when sessions, selectors and pairs all fit their bounds |
| GraphMeaning.EdgesAreReal | src/resource-coordination.ts:252-272 | every edge joins nodes of two comparable sessions that name a common path |
| GraphMeaning.CompleteGraphMissesNothing | src/resource-coordination.ts:252-272 | in a complete graph every such pair has an edge |
| GraphMeaning.CleanIffNoSharedPath | src/resource-coordination.ts:274-287 | clean exactly when complete and no path is named by comparable nodes of two sessions |
| GraphMeaning.CleanIffUndisputed | src/resource-coordination.ts:220-287 | the same in terms of the claims and intents given |
| GraphMeaning.EveryIntentIsDeclared | src/resource-coordination.ts:301-338 | no intent falls through: it counts under its claim's repository or its own |
| GraphMeaning.GraphIgnoresOrder | src/resource-coordination.ts:220-338 | with distinct identifiers the graph does not depend on the order of its input |
| GraphCounts.FactsMean | src/resource-coordination.ts:360-427 | each single fact of an edge, by the paths the two nodes name and plan to create |
| GraphCounts.GraphIsCounted | src/resource-coordination.ts:220-287 | complete or not: which nodes are kept, in which order their pairs are looked at, that edges are exactly the meetings among those, and the three numbers of what is left out as counts over the input |
| CoordinationEvidence.ObserveAttempt | src/resource-coordination-evidence.ts:348-446 | one attempt: two readings of everything, stale if any differs |
| CoordinationEvidence.ObserveCoordinationInputs | src/resource-coordination-evidence.ts:245-287 | the loop is the first settled attempt, or the last allowed one; `EvidenceMeaning` says what its token holds |
| CoordinationEvidence.AttemptsAreBounded | src/resource-coordination-evidence.ts:266-287 | at most maxRetries + 1 attempts; the token counts them and is that of the last |
| EvidenceMeaning.SelectionMeans | src/resource-coordination-evidence.ts:965-984 | without identifiers exactly the active records in order, with identifiers exactly the first records they name, each once in order of mention; refused if and only if one has no record |
| EvidenceMeaning.ObservationSelects | src/resource-coordination-evidence.ts:348-446 | the token's sessions are that selection of the first reading, and its claims are exactly theirs, in order and as often |
| EvidenceMeaning.RefusedIff | src/resource-coordination-evidence.ts:245-265 | an observation is refused for an identifier without a record, for nothing to observe or for a record of another repository, and for nothing else |
| EvidenceMeaning.StatusIsFounded | src/resource-coordination-evidence.ts:411-446 | stable if and only if both readings agree about everything and all files could be read; stale if and only if something differs |
| CoordinationEvidence.StableHeldThroughout | src/resource-coordination-evidence.ts:411-446 | at every moment of the window the registry holds exactly the token's claims for its sessions, their records as first read, and its generation |
| CoordinationEvidence.StableClaimsHeldThroughout | src/resource-coordination-evidence.ts:1041-1049 | without a revision the token's claims are still exactly those its sessions hold, throughout |
| CoordinationEvidence.StableWorktreesAgree | src/resource-coordination-evidence.ts:414-420 | worktrees and files read the same before and after |
| CoordinationEvidence.HeldIffRevisionReadable | src/resource-coordination-evidence.ts:411-446 | every stable token describes the registry during its whole window if and only if the revision could be read |
| CoordinationEvidence.StaleIsReturnedIff | src/resource-coordination-evidence.ts:266-287 | the caller gets the stale token of an attempt exactly when it is the last allowed or some file could not be read in it |
| CoordinationEvidence.StaleAtOnce | src/resource-coordination-evidence.ts:442-445 | an input that gets the first attempt's stale token whatever the number of retries |
| CoordinationView.ParseRows | src/resource-coordination-view.ts:140-167 | accepts exactly bounded rows with unique resources, sorted by resource |
| CoordinationView.ProjectFileSessionMatrix | src/resource-coordination-view.ts:87-138 | computes the specified page or the first error |
| CoordinationView.RequestsAreAnswered | src/resource-coordination-view.ts:87-138 | any request, whatever its cursor: a wrong limit, bad rows or an unreadable cursor is an invalid argument, a cursor of another revision is stale, otherwise the page is the first rows after the cursor |
| CoordinationView.EveryRowOnce | src/resource-coordination-view.ts:117-138 | following cursors ends and yields every row exactly once in order, for any page sizes |
| CoordinationView.CursorLeadsOn | src/resource-coordination-view.ts:117-128 | the cursor made from a row leads to the next row |
| Cli.ParseClaimDeltaMutation | src/cli.ts:1058-1170 | the index loop computes the specified parse, error for error |
| CliGrammar.AcceptedExactly | src/cli.ts:1058-1170 | an argument list is read as a mutation exactly when it spells it: each upsert followed at once by its mode, deltas in order, one of generation and force |
| CliGrammar.RoundTrip | src/cli.ts:480-484 | printing in `--name=value` form and parsing gives the mutation back, for values with `=` or a leading `-` |
| CliGrammar.PositionalTargetIsTheOption | src/cli.ts:770-776 | a positional target is the option |
| SessionId.GenerateSessionId | src/session-id.ts:10-33 | the byte loop and the masks produce the stamped bytes in dashed hexadecimal; unsafe timestamps are refused |
| SessionId.GeneratedIdsAreValid | src/session-id.ts:35-37 | every generated identifier passes `isSessionId` |
| SessionId.FirstBitsAreTheTime | src/session-id.ts:15-20 | the first 48 bits are the timestamp modulo 2^48 (section 5.7 of RFC 9562) |
| SessionId.LaterIdsSortAfter | src/session-id.ts:5-9 | within 48 bits a later identifier is strictly greater, whatever the random bytes |
| SessionId.OrderIsByRemainder | src/session-id.ts:5-20 | for any two timestamps: identifiers sort by time, whatever the random bytes, if and only if the timestamps do modulo 2^48 |
| SessionId.SameIdIff | src/session-id.ts:10-33 | two identifiers are the same if and only if their times agree modulo 2^48 and their random bytes in the 74 bits that are kept |

## Left out

- Filesystem canonicalization, symbolic links, inode identity and Unicode normalization (src/resource-claims.ts:253-307, 533-690): host state.
- Error messages, details, blockers, recovery hints, serialization and frozen copies: text without decisions.
- Claim and record timestamps are taken as canonical; schema versions and record shapes as checked.
- The registry's file, lock and history capacity. A write that became visible is not undone: that a crash may still lose it is not modelled, and neither is the lost answer of a transaction.
- Other writers of claims (closing a session, integration, legacy claim calls): `HandoffRuns` admits them under its condition on generations, `MixedRuns` does not contain them.
- Request bodies, lock messages, the startup timeout and the transport of the pool: a body that cannot be delivered is a failure event.
- Resources.CanonicalizationIsIdentity: the refusal of texts that are not in Unicode normalization form C is not modelled.
- Authorization.AuthorizeCoordinationOperation: refusals of a path by its worktree or a symbolic link are not modelled.
- ResourceHandoff.AssertSnapshot: claim timestamps are not checked, and the length of a claim identifier is not bounded, since it stands as the text that is hashed.
- HandoffExecution.FenceSession: the refusal while a park of the session is pending is not modelled; a session without an entry counts as one without admission.
- RequestPool.ControlRequestPool.OnReply: messages that ask for the request body are not modelled; they settle nothing.
- RequestPool.ControlRequestPool.StartWorkers: the wait for readiness and its timeout are not modelled.
- ResourceCoordination.BuildNodes: intents are taken as already normalized.
- OverlapGraph.BuildResourceOverlapGraph: bounds are taken as parsed and intents as normalized; edges carry their facts and not the label derived from them.
- CoordinationEvidence.ObserveAttempt: a session's files are one reading, and which paths are selected is not modelled.
- CoordinationView.ParseRows: a row is its resource and the rest; its columns are not parsed.
- RequestPool.ControlRequestPool.OnReady: work conservation is not promised while a worker is still becoming ready, because readiness does not schedule.
- Selectors.ResourceSelectorsOverlap: the parent/child fact is not claimed to be symmetric, because two namespaces are compared in one direction only.
- GraphMeaning.GraphIgnoresOrder: intents are taken as already canonical; recomputing their identifiers is not modelled.
- Bounds parsing and the classification labels of an edge (src/resource-coordination.ts:419-427): a case table.
- Blob, diff and path comparison contents of an observation (src/resource-coordination-evidence.ts:289-346, 560-735).
- CoordinationEvidence.ObserveCoordinationInputs: a path selection over its bound is not modelled; the list of paths is taken to fit.
- The cursor's text encoding (JSON in base64url) and the columns of a matrix row: a cursor is its two fields or garbage, a row is its resource and the rest. Lengths count characters.
- The replacement and release argument parsers (src/cli.ts:952-1051, 1217-1386): they repeat the techniques proved for the delta parser.
- Git, child processes, web and terminal interfaces, the sandbox, merge decisions, attention and snapshot projections.
