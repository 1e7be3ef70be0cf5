/** Observing sessions while the registry and the worktrees keep changing: read everything, read
    it again, and retry when the two readings differ. */
module CoordinationEvidence {
  import opened ResourceClaims
  import opened Selections
  import opened Wrappers

  datatype ObservationError = SessionNotFound | RepositoryMismatch

  /** One session record; `details` stands for the fields not looked at here. */
  datatype Session = Session(sessionId: string, repositoryId: string, active: bool, details: string)

  /** Everything that can be read, at one moment. A session missing from `physical` is one whose
      worktree cannot be verified, one missing from `files` has a path that cannot be read. */
  datatype Moment = Moment(
    sessions: seq<Session>,
    claims: seq<Claim>,
    generation: int,
    revision: int,
    revisionReadable: bool,
    physical: map<string, string>,
    files: map<string, string>)

  type Trace = nat -> Moment

  /** When the `k`-th reading of an attempt takes place. */
  type Clock = (nat, nat) -> nat

  datatype Snapshot = Snapshot(sessions: seq<Session>, claims: seq<Claim>, generation: int, revision: Option<int>)

  datatype Status = Stable | Stale | Unavailable

  datatype Token = Token(
    status: Status, attempts: nat, sessions: seq<Session>, claims: seq<Claim>,
    generation: int, revision: Option<int>, physical: seq<string>)

  /** `readRegistrySnapshot`: sessions, claims with their generation, and revision are three readings. */
  function ReadSnapshot(trace: Trace, at: Clock, n: nat, k: nat): Snapshot {
    var last := trace(at(n, k + 2));
    Snapshot(trace(at(n, k)).sessions, trace(at(n, k + 1)).claims, trace(at(n, k + 1)).generation,
             if last.revisionReadable then Some(last.revision) else None)
  }

  function ActiveOnly(sessions: seq<Session>): seq<Session> {
    if sessions == [] then []
    else (if sessions[0].active then [sessions[0]] else []) + ActiveOnly(sessions[1..])
  }

  function Find(sessions: seq<Session>, id: string): Option<Session> {
    if sessions == [] then None
    else if sessions[0].sessionId == id then Some(sessions[0])
    else Find(sessions[1..], id)
  }

  /** The records of the given identifiers, each once. */
  function FindAll(sessions: seq<Session>, ids: seq<string>, seen: set<string>)
    : Result<seq<Session>, ObservationError>
  {
    if ids == [] then Ok([])
    else
      match Find(sessions, ids[0])
      case None => Err(SessionNotFound)
      case Some(record) =>
        match FindAll(sessions, ids[1..], seen + {ids[0]})
        case Err(e) => Err(e)
        case Ok(rest) => Ok((if ids[0] in seen then [] else [record]) + rest)
  }

  function SelectSessions(sessions: seq<Session>, ids: seq<string>): Result<seq<Session>, ObservationError> {
    if ids == [] then Ok(ActiveOnly(sessions)) else FindAll(sessions, ids, {})
  }

  function IdsOf(records: seq<Session>): set<string> {
    set r | r in records :: r.sessionId
  }

  function SessionsAmong(sessions: seq<Session>, ids: set<string>): seq<Session> {
    if sessions == [] then []
    else (if sessions[0].sessionId in ids then [sessions[0]] else []) + SessionsAmong(sessions[1..], ids)
  }

  function ClaimsAmong(claims: seq<Claim>, ids: set<string>): seq<Claim> {
    if claims == [] then []
    else (if claims[0].sessionId in ids then [claims[0]] else []) + ClaimsAmong(claims[1..], ids)
  }

  /** `sameRegistrySnapshot`. */
  predicate SameSnapshot(left: Snapshot, right: Snapshot, ids: set<string>) {
    if left.revision != right.revision || left.generation != right.generation then false
    else SessionsAmong(left.sessions, ids) == SessionsAmong(right.sessions, ids)
         && ClaimsAmong(left.claims, ids) == ClaimsAmong(right.claims, ids)
  }

  /** The worktree of record `i`, verified at its own moment; an inactive session is an error. */
  function PhysicalOf(trace: Trace, at: Clock, n: nat, k: nat, records: seq<Session>, i: nat): Option<string>
    requires i < |records|
  {
    var seen := trace(at(n, k + i)).physical;
    if records[i].active && records[i].sessionId in seen then Some(seen[records[i].sessionId]) else None
  }

  /** `readPhysicalObservations`: all of them, or nothing. */
  function ReadPhysical(trace: Trace, at: Clock, n: nat, k: nat, records: seq<Session>): (r: Option<seq<string>>)
    ensures r.Some? ==> |r.value| == |records|
  {
    if forall i :: 0 <= i < |records| ==> PhysicalOf(trace, at, n, k, records, i).Some? then
      Some(seq(|records|, i requires 0 <= i < |records| => PhysicalOf(trace, at, n, k, records, i).value))
    else None
  }

  function FilesOf(trace: Trace, at: Clock, n: nat, k: nat, records: seq<Session>, i: nat): Option<string>
    requires i < |records|
  {
    var seen := trace(at(n, k + i)).files;
    if records[i].sessionId in seen then Some(seen[records[i].sessionId]) else None
  }

  /** The position of the second registry reading of an attempt over `m` records. */
  function SecondReading(m: nat): nat {
    3 + 3 * m
  }

  predicate FilesLost(trace: Trace, at: Clock, n: nat, records: seq<Session>, i: nat)
    requires i < |records|
  {
    FilesOf(trace, at, n, 3 + |records|, records, i) == None
  }

  predicate FilesUnavailable(trace: Trace, at: Clock, n: nat, records: seq<Session>, count: nat)
    requires count <= |records|
  {
    exists i :: 0 <= i < count && FilesLost(trace, at, n, records, i)
  }

  /** `samePathIdentity` for record `i`, whose worktree was read as `first` and then as `second`. */
  predicate SamePaths(trace: Trace, at: Clock, n: nat, records: seq<Session>, i: nat, first: string, second: string)
    requires i < |records|
  {
    var built := FilesOf(trace, at, n, 3 + |records|, records, i);
    first == second && (built == None || FilesOf(trace, at, n, SecondReading(|records|) + 3, records, i) == built)
  }

  predicate WorktreesUnchanged(
    trace: Trace, at: Clock, n: nat, records: seq<Session>, first: seq<string>, second: seq<string>, count: nat)
    requires |first| == |second| == |records| && count <= |records|
  {
    forall i :: 0 <= i < count ==> first[i] == second[i] && SamePaths(trace, at, n, records, i, first[i], second[i])
  }

  datatype Attempt = Attempt(token: Token, stable: bool)

  /** What is left when a worktree cannot be verified: flagged, and not tried again. */
  function LostAttempt(n: nat, records: seq<Session>, initial: Snapshot): Attempt {
    Attempt(Token(Unavailable, n + 1, records, ClaimsAmong(initial.claims, IdsOf(records)),
                  initial.generation, initial.revision, []), true)
  }

  function AttemptOf(trace: Trace, at: Clock, n: nat, records: seq<Session>, initial: Snapshot): Attempt {
    var ids, m := IdsOf(records), |records|;
    match ReadPhysical(trace, at, n, 3, records)
    case None => LostAttempt(n, records, initial)
    case Some(first) =>
      match ReadPhysical(trace, at, n, 3 + 2 * m, records)
      case None => LostAttempt(n, records, initial)
      case Some(second) =>
        var later := ReadSnapshot(trace, at, n, SecondReading(m));
        var same := SameSnapshot(initial, later, ids) && WorktreesUnchanged(trace, at, n, records, first, second, m);
        var lost := FilesUnavailable(trace, at, n, records, m);
        Attempt(Token(if !same then Stale else if lost then Unavailable else Stable, n + 1, records,
                      ClaimsAmong(initial.claims, ids), later.generation, later.revision, first),
                same || lost)
  }

  /** Reading the files of every session, with a flag for any that cannot be read. */
  method ReadFiles(trace: Trace, at: Clock, n: nat, records: seq<Session>) returns (observationUnavailable: bool)
    ensures observationUnavailable <==> FilesUnavailable(trace, at, n, records, |records|)
  {
    observationUnavailable := false;
    for i := 0 to |records|
      invariant observationUnavailable <==> FilesUnavailable(trace, at, n, records, i)
    {
      if FilesLost(trace, at, n, records, i) { observationUnavailable := true; }
    }
  }

  method CompareWorktrees(trace: Trace, at: Clock, n: nat, records: seq<Session>, first: seq<string>,
      second: seq<string>)
    returns (same: bool)
    requires |first| == |second| == |records|
    ensures same <==> WorktreesUnchanged(trace, at, n, records, first, second, |records|)
  {
    same := true;
    for i := 0 to |records|
      invariant same <==> WorktreesUnchanged(trace, at, n, records, first, second, i)
    {
      same := same && first[i] == second[i] && SamePaths(trace, at, n, records, i, first[i], second[i]);
    }
  }

  /** `observeAttempt`, on the records and the snapshot it starts from. */
  method ObserveAttempt(trace: Trace, at: Clock, n: nat, records: seq<Session>, initial: Snapshot)
    returns (attempt: Attempt)
    ensures attempt == AttemptOf(trace, at, n, records, initial)
  {
    var ids, m := IdsOf(records), |records|;
    var physical := ReadPhysical(trace, at, n, 3, records);
    if physical == None { return LostAttempt(n, records, initial); }
    var observationUnavailable := ReadFiles(trace, at, n, records);
    var finalPhysical := ReadPhysical(trace, at, n, 3 + 2 * m, records);
    if finalPhysical == None { return LostAttempt(n, records, initial); }
    var finalRegistry := ReadSnapshot(trace, at, n, SecondReading(m));
    var worktrees := CompareWorktrees(trace, at, n, records, physical.value, finalPhysical.value);
    var same := SameSnapshot(initial, finalRegistry, ids) && worktrees;
    var status := if !same then Stale else if observationUnavailable then Unavailable else Stable;
    var token := Token(status, n + 1, records, ClaimsAmong(initial.claims, ids),
                       finalRegistry.generation, finalRegistry.revision, physical.value);
    return Attempt(token, same || observationUnavailable);
  }

  /** Attempt `n` from its own first reading of the registry. */
  function WholeAttempt(trace: Trace, at: Clock, ids: seq<string>, n: nat): Result<Attempt, ObservationError> {
    var baseline := ReadSnapshot(trace, at, n, 0);
    match SelectSessions(baseline.sessions, ids)
    case Err(e) => Err(e)
    case Ok(records) => Ok(AttemptOf(trace, at, n, records, baseline))
  }

  type Tries = nat -> Result<Attempt, ObservationError>

  function TriesOf(trace: Trace, at: Clock, ids: seq<string>): Tries {
    (n: nat) => WholeAttempt(trace, at, ids, n)
  }

  /** Attempt `n` ran and did not settle the matter. */
  predicate Unsettled(tries: Tries, n: nat) {
    tries(n).Ok? && !tries(n).value.stable
  }

  /** The attempts from `n` on. */
  function Settle(tries: Tries, n: nat, maxRetries: nat): Result<Token, ObservationError>
    requires n <= maxRetries
    decreases maxRetries - n
  {
    match tries(n)
    case Err(e) => Err(e)
    case Ok(attempt) =>
      if attempt.stable || n == maxRetries then Ok(attempt.token) else Settle(tries, n + 1, maxRetries)
  }

  lemma AttemptIsNumbered(trace: Trace, at: Clock, ids: seq<string>, n: nat)
    requires WholeAttempt(trace, at, ids, n).Ok?
    ensures WholeAttempt(trace, at, ids, n).value.token.attempts == n + 1
  {
  }

  /** The result is the first settled attempt, or the last one allowed. */
  lemma {:induction false} SettlesOnTheFirst(tries: Tries, n: nat, maxRetries: nat) returns (k: nat)
    requires n <= maxRetries && Settle(tries, n, maxRetries).Ok?
    ensures n <= k <= maxRetries && tries(k).Ok? && tries(k).value.token == Settle(tries, n, maxRetries).value
    ensures forall j: nat :: n <= j < k ==> Unsettled(tries, j)
    ensures Unsettled(tries, k) ==> k == maxRetries
    decreases maxRetries - n
  {
    k := n;
    if Unsettled(tries, n) && n < maxRetries {
      k := SettlesOnTheFirst(tries, n + 1, maxRetries);
    }
  }

  /** At most `maxRetries + 1` attempts are made; the token counts them and is that of the last. */
  lemma AttemptsAreBounded(trace: Trace, at: Clock, ids: seq<string>, maxRetries: nat, token: Token)
    requires Settle(TriesOf(trace, at, ids), 0, maxRetries) == Ok(token)
    ensures 1 <= token.attempts <= maxRetries + 1
    ensures WholeAttempt(trace, at, ids, token.attempts - 1).Ok?
    ensures WholeAttempt(trace, at, ids, token.attempts - 1).value.token == token
    ensures forall j: nat :: j < token.attempts - 1 ==> Unsettled(TriesOf(trace, at, ids), j)
    ensures Unsettled(TriesOf(trace, at, ids), token.attempts - 1) ==> token.attempts == maxRetries + 1
  {
    var k := SettlesOnTheFirst(TriesOf(trace, at, ids), 0, maxRetries);
    AttemptIsNumbered(trace, at, ids, k);
  }

  // ----- Which stale attempts are tried again

  /** Whether every file of attempt `n` could be read. */
  predicate FilesReadable(trace: Trace, at: Clock, ids: seq<string>, n: nat) {
    var records := SelectSessions(ReadSnapshot(trace, at, n, 0).sessions, ids);
    records.Ok? && !FilesUnavailable(trace, at, n, records.value, |records.value|)
  }

  predicate StaleAttempt(trace: Trace, at: Clock, ids: seq<string>, n: nat) {
    WholeAttempt(trace, at, ids, n).Ok? && WholeAttempt(trace, at, ids, n).value.token.status == Stale
  }

  /** A stale attempt is tried again exactly when all its files could be read. */
  lemma StaleIsRetriedIffReadable(trace: Trace, at: Clock, ids: seq<string>, n: nat)
    requires StaleAttempt(trace, at, ids, n)
    ensures Unsettled(TriesOf(trace, at, ids), n) <==> FilesReadable(trace, at, ids, n)
  {
  }

  lemma {:induction false} SkipsUnsettled(tries: Tries, n: nat, k: nat, maxRetries: nat)
    requires n <= k <= maxRetries && forall j: nat :: n <= j < k ==> Unsettled(tries, j)
    ensures Settle(tries, n, maxRetries) == Settle(tries, k, maxRetries)
    decreases k - n
  {
    if n < k {
      assert Unsettled(tries, n);
      SkipsUnsettled(tries, n + 1, k, maxRetries);
    }
  }

  /** With numbered tokens, attempt `n` gives the result, once the loop gets there, exactly when it
      is settled or the last. */
  lemma ReturnedIff(tries: Tries, n: nat, maxRetries: nat)
    requires n <= maxRetries && tries(n).Ok? && forall j: nat :: j < n ==> Unsettled(tries, j)
    requires forall k: nat :: tries(k).Ok? ==> tries(k).value.token.attempts == k + 1
    ensures Settle(tries, 0, maxRetries) == Ok(tries(n).value.token) <==> n == maxRetries || tries(n).value.stable
  {
    SkipsUnsettled(tries, 0, n, maxRetries);
    if n < maxRetries && Unsettled(tries, n) && Settle(tries, n + 1, maxRetries).Ok? {
      var k := SettlesOnTheFirst(tries, n + 1, maxRetries);
      assert tries(k).value.token.attempts == k + 1;
    }
  }

  /** A stale token is what the caller gets from attempt `n`, once the loop gets there, exactly when
      that attempt is the last one allowed or some file could not be read in it. */
  lemma StaleIsReturnedIff(trace: Trace, at: Clock, ids: seq<string>, n: nat, maxRetries: nat)
    requires n <= maxRetries && StaleAttempt(trace, at, ids, n)
    requires forall j: nat :: j < n ==> Unsettled(TriesOf(trace, at, ids), j)
    ensures Settle(TriesOf(trace, at, ids), 0, maxRetries) == Ok(WholeAttempt(trace, at, ids, n).value.token)
       <==> n == maxRetries || !FilesReadable(trace, at, ids, n)
  {
    var tries := TriesOf(trace, at, ids);
    forall k: nat | tries(k).Ok? ensures tries(k).value.token.attempts == k + 1 {
      AttemptIsNumbered(trace, at, ids, k);
    }
    ReturnedIff(tries, n, maxRetries);
    StaleIsRetriedIffReadable(trace, at, ids, n);
  }

  /** The checks made once, before the first attempt. */
  function FirstCheck(trace: Trace, at: Clock, ids: seq<string>, repositoryId: string): Option<ObservationError> {
    match SelectSessions(ReadSnapshot(trace, at, 0, 0).sessions, ids)
    case Err(e) => Some(e)
    case Ok(records) =>
      if records == [] then Some(SessionNotFound)
      else if exists r :: r in records && r.repositoryId != repositoryId then Some(RepositoryMismatch)
      else None
  }

  /** `observeCoordinationInputs`. */
  method ObserveCoordinationInputs(trace: Trace, at: Clock, ids: seq<string>, repositoryId: string, maxRetries: nat)
    returns (r: Result<Token, ObservationError>)
    ensures FirstCheck(trace, at, ids, repositoryId) == None ==> r == Settle(TriesOf(trace, at, ids), 0, maxRetries)
    ensures FirstCheck(trace, at, ids, repositoryId).Some? ==> r == Err(FirstCheck(trace, at, ids, repositoryId).value)
  {
    var baseline := ReadSnapshot(trace, at, 0, 0);
    var first := SelectSessions(baseline.sessions, ids);
    if first.Err? { return Err(first.error); }
    if first.value == [] { return Err(SessionNotFound); }
    if exists s :: s in first.value && s.repositoryId != repositoryId { return Err(RepositoryMismatch); }
    ghost var tries := TriesOf(trace, at, ids);
    var n: nat := 0;
    while true
      invariant n <= maxRetries && baseline == ReadSnapshot(trace, at, n, 0)
      invariant Settle(tries, 0, maxRetries) == Settle(tries, n, maxRetries)
      decreases maxRetries - n
    {
      var records := SelectSessions(baseline.sessions, ids);
      if records.Err? { return Err(records.error); }
      var last := ObserveAttempt(trace, at, n, records.value, baseline);
      if last.stable || n == maxRetries { return Ok(last.token); }
      n := n + 1;
      baseline := ReadSnapshot(trace, at, n, 0);
    }
  }

  // ----- What a stable token proves

  /** How the registry behaves, whoever else writes it: a change of the claims raises the claim
      generation, and any change at all raises the revision. */
  ghost predicate Versioned(trace: Trace) {
    forall t: nat :: Advances(trace(t), trace(t + 1))
  }

  predicate Advances(m: Moment, n: Moment) {
    && m.generation <= n.generation && m.revision <= n.revision
    && (m.claims != n.claims ==> m.generation < n.generation)
    && (m.sessions != n.sessions || m.generation != n.generation ==> m.revision < n.revision)
  }

  ghost predicate Ticking(at: Clock) {
    forall n: nat, i: nat, j: nat :: i <= j ==> at(n, i) <= at(n, j)
  }

  lemma {:induction false} CountersGrow(trace: Trace, s: nat, t: nat)
    requires Versioned(trace) && s <= t
    ensures trace(s).generation <= trace(t).generation && trace(s).revision <= trace(t).revision
    decreases t - s
  {
    if s < t {
      CountersGrow(trace, s, t - 1);
      assert Advances(trace(t - 1), trace(t - 1 + 1));
    }
  }

  lemma {:induction false} EqualGenerationsHold(trace: Trace, s: nat, t: nat)
    requires Versioned(trace) && s <= t && trace(s).generation == trace(t).generation
    ensures trace(s).claims == trace(t).claims
    decreases t - s
  {
    if s < t {
      assert Advances(trace(t - 1), trace(t - 1 + 1));
      CountersGrow(trace, s, t - 1);
      EqualGenerationsHold(trace, s, t - 1);
    }
  }

  lemma {:induction false} EqualRevisionsHold(trace: Trace, s: nat, t: nat)
    requires Versioned(trace) && s <= t && trace(s).revision == trace(t).revision
    ensures trace(s).sessions == trace(t).sessions && trace(s).generation == trace(t).generation
    ensures trace(s).claims == trace(t).claims
    decreases t - s
  {
    if s < t {
      assert Advances(trace(t - 1), trace(t - 1 + 1));
      CountersGrow(trace, s, t - 1);
      EqualRevisionsHold(trace, s, t - 1);
    }
  }

  /** Some record of the list has the identifier. */
  predicate Lists(sessions: seq<Session>, id: string) {
    exists r :: r in sessions && r.sessionId == id
  }

  /** Whose session is in the list. */
  function ClaimsOf(sessions: seq<Session>): Claim -> bool {
    (c: Claim) => Lists(sessions, c.sessionId)
  }

  function RecordsOf(sessions: seq<Session>): Session -> bool {
    (s: Session) => Lists(sessions, s.sessionId)
  }

  lemma {:induction false} ClaimsAreSelected(claims: seq<Claim>, sessions: seq<Session>)
    ensures KeepsExactly(ClaimsAmong(claims, IdsOf(sessions)), claims, ClaimsOf(sessions))
  {
    if claims == [] {
      NothingKept(ClaimsOf(sessions));
    } else {
      ClaimsAreSelected(claims[1..], sessions);
      OneMoreKept(ClaimsAmong(claims[1..], IdsOf(sessions)), claims, ClaimsOf(sessions));
    }
  }

  lemma {:induction false} RecordsAreSelected(records: seq<Session>, sessions: seq<Session>)
    ensures KeepsExactly(SessionsAmong(records, IdsOf(sessions)), records, RecordsOf(sessions))
  {
    if records == [] {
      NothingKept(RecordsOf(sessions));
    } else {
      RecordsAreSelected(records[1..], sessions);
      OneMoreKept(SessionsAmong(records[1..], IdsOf(sessions)), records, RecordsOf(sessions));
    }
  }

  /** Both lists have the same records of these sessions, in the same order. */
  ghost predicate SameRecords(left: seq<Session>, right: seq<Session>, sessions: seq<Session>) {
    exists records ::
      KeepsExactly(records, left, RecordsOf(sessions)) && KeepsExactly(records, right, RecordsOf(sessions))
  }

  /** What the token says about its sessions is what the registry held at moment `m`: its claims are exactly the
      claims of its sessions, and the records of its sessions are there as they were first read. */
  ghost predicate DescribesRegistryAt(token: Token, initial: Snapshot, m: Moment) {
    && KeepsExactly(token.claims, m.claims, ClaimsOf(token.sessions))
    && SameRecords(initial.sessions, m.sessions, token.sessions)
    && (forall r :: r in token.sessions ==> r in m.sessions)
    && m.generation == token.generation
  }

  lemma {:induction false} ActiveAreListed(sessions: seq<Session>)
    ensures forall r :: r in ActiveOnly(sessions) ==> r in sessions
  {
    if sessions != [] { ActiveAreListed(sessions[1..]); }
  }

  lemma {:induction false} FoundIsListed(sessions: seq<Session>, id: string)
    ensures Find(sessions, id).Some? ==> Find(sessions, id).value in sessions
  {
    if sessions != [] { FoundIsListed(sessions[1..], id); }
  }

  lemma {:induction false} AllFoundAreListed(sessions: seq<Session>, ids: seq<string>, seen: set<string>)
    requires FindAll(sessions, ids, seen).Ok?
    ensures forall r :: r in FindAll(sessions, ids, seen).value ==> r in sessions
  {
    if ids != [] {
      FoundIsListed(sessions, ids[0]);
      AllFoundAreListed(sessions, ids[1..], seen + {ids[0]});
    }
  }

  lemma SelectedAreListed(sessions: seq<Session>, ids: seq<string>)
    requires SelectSessions(sessions, ids).Ok?
    ensures forall r :: r in SelectSessions(sessions, ids).value ==> r in sessions
  {
    if ids == [] { ActiveAreListed(sessions); } else { AllFoundAreListed(sessions, ids, {}); }
  }

  lemma SameMeansSameRecords(left: seq<Session>, right: seq<Session>, sessions: seq<Session>)
    requires SessionsAmong(left, IdsOf(sessions)) == SessionsAmong(right, IdsOf(sessions))
    requires forall r :: r in sessions ==> r in left
    ensures SameRecords(left, right, sessions) && forall r :: r in sessions ==> r in right
  {
    var records := SessionsAmong(left, IdsOf(sessions));
    RecordsAreSelected(left, sessions);
    RecordsAreSelected(right, sessions);
    KeptElements(records, left, RecordsOf(sessions));
    KeptElements(records, right, RecordsOf(sessions));
    forall r | r in sessions ensures r in right {
      assert RecordsOf(sessions)(r);
      assert r in records;
    }
  }

  /** A stable token with a revision describes the registry at every moment from the end of the
      first reading to the end of the second, although each reading is three separate ones. */
  lemma StableHeldThroughout(trace: Trace, at: Clock, ids: seq<string>, n: nat, token: Token, t: nat)
    requires Versioned(trace) && Ticking(at)
    requires WholeAttempt(trace, at, ids, n).Ok? && WholeAttempt(trace, at, ids, n).value.token == token
    requires token.status == Stable && token.revision.Some?
    requires at(n, 2) <= t <= at(n, SecondReading(|token.sessions|) + 2)
    ensures DescribesRegistryAt(token, ReadSnapshot(trace, at, n, 0), trace(t))
    ensures trace(t).revision == token.revision.value
  {
    StableReadings(trace, at, ids, n, token, t);
    ClaimsAreSelected(trace(t).claims, token.sessions);
    SelectedAreListed(trace(at(n, 0)).sessions, ids);
    SameMeansSameRecords(trace(at(n, 0)).sessions, trace(t).sessions, token.sessions);
  }

  lemma StableReadings(trace: Trace, at: Clock, ids: seq<string>, n: nat, token: Token, t: nat)
    requires Versioned(trace) && Ticking(at)
    requires WholeAttempt(trace, at, ids, n).Ok? && WholeAttempt(trace, at, ids, n).value.token == token
    requires token.status == Stable && token.revision.Some?
    requires at(n, 2) <= t <= at(n, SecondReading(|token.sessions|) + 2)
    ensures SessionsAmong(trace(at(n, 0)).sessions, IdsOf(token.sessions))
      == SessionsAmong(trace(t).sessions, IdsOf(token.sessions))
    ensures token.claims == ClaimsAmong(trace(t).claims, IdsOf(token.sessions))
    ensures token.generation == trace(t).generation && trace(t).revision == token.revision.value
    ensures SelectSessions(trace(at(n, 0)).sessions, ids) == Ok(token.sessions)
  {
    var f := SecondReading(|token.sessions|);
    var first, last := at(n, 2), at(n, f + 2);
    assert first <= at(n, f) <= at(n, f + 1) <= last;
    assert trace(first).revision == trace(last).revision;
    CountersGrow(trace, first, t);
    CountersGrow(trace, t, last);
    EqualRevisionsHold(trace, first, t);
    CountersGrow(trace, first, at(n, f));
    CountersGrow(trace, at(n, f), last);
    EqualRevisionsHold(trace, first, at(n, f));
    CountersGrow(trace, first, at(n, f + 1));
    CountersGrow(trace, at(n, f + 1), last);
    EqualRevisionsHold(trace, first, at(n, f + 1));
  }

  /** Without a readable revision the claims still held, from the first reading of them to the second. */
  lemma StableClaimsHeldThroughout(trace: Trace, at: Clock, ids: seq<string>, n: nat, token: Token, t: nat)
    requires Versioned(trace) && Ticking(at)
    requires WholeAttempt(trace, at, ids, n).Ok? && WholeAttempt(trace, at, ids, n).value.token == token
    requires token.status == Stable
    requires at(n, 1) <= t <= at(n, SecondReading(|token.sessions|) + 1)
    ensures KeepsExactly(token.claims, trace(t).claims, ClaimsOf(token.sessions))
    ensures trace(t).generation == token.generation
  {
    ClaimsAreSelected(trace(t).claims, token.sessions);
    var first, last := at(n, 1), at(n, SecondReading(|token.sessions|) + 1);
    CountersGrow(trace, first, t);
    CountersGrow(trace, t, last);
    EqualGenerationsHold(trace, first, t);
  }

  /** A stable token means every session was active in its recorded worktree, which read the same
      before and after the files were read, and the files read the same afterwards. */
  lemma StableWorktreesAgree(trace: Trace, at: Clock, n: nat, records: seq<Session>, initial: Snapshot, i: nat)
    requires AttemptOf(trace, at, n, records, initial).token.status == Stable && i < |records|
    ensures records[i].active
    ensures var seen := Some(AttemptOf(trace, at, n, records, initial).token.physical[i]);
      seen == PhysicalOf(trace, at, n, 3, records, i) == PhysicalOf(trace, at, n, 3 + 2 * |records|, records, i)
    ensures var files := FilesOf(trace, at, n, 3 + |records|, records, i);
      files.Some? && files == FilesOf(trace, at, n, SecondReading(|records|) + 3, records, i)
  {
    assert PhysicalOf(trace, at, n, 3, records, i).Some?;
    assert !FilesLost(trace, at, n, records, i);
  }

  // ----- The revision is needed

  const STEADY := Session("s", "repo", true, "a")

  /** The record of the only session changes once, and changes back; the revision cannot be read. */
  function Flicker(t: nat): Moment {
    Moment([if t == 4 then STEADY.(details := "b") else STEADY], [], 0, t, false, map["s" := "w"], map["s" := "f"])
  }

  lemma FlickerWorktrees(at: Clock, k: nat)
    requires forall n, i :: at(n, i) == i
    ensures ReadPhysical(Flicker, at, 0, k, [STEADY]) == Some(["w"])
    ensures FilesOf(Flicker, at, 0, k, [STEADY], 0) == Some("f")
  {
    assert PhysicalOf(Flicker, at, 0, k, [STEADY], 0) == Some("w");
    assert ReadPhysical(Flicker, at, 0, k, [STEADY]).value == ["w"];
  }

  lemma FlickerIsStable(at: Clock)
    requires forall n, i :: at(n, i) == i
    ensures AttemptOf(Flicker, at, 0, [STEADY], Snapshot([STEADY], [], 0, None)).token.status == Stable
  {
    var records := [STEADY];
    FlickerWorktrees(at, 3);
    FlickerWorktrees(at, 4);
    FlickerWorktrees(at, 5);
    FlickerWorktrees(at, 9);
    assert ReadSnapshot(Flicker, at, 0, 6) == Snapshot([STEADY], [], 0, None);
    assert WorktreesUnchanged(Flicker, at, 0, records, ["w"], ["w"], 1);
    assert !FilesUnavailable(Flicker, at, 0, records, 1);
  }

  lemma FlickerIsSelected(at: Clock)
    requires forall n, i :: at(n, i) == i
    ensures WholeAttempt(Flicker, at, ["s"], 0) ==
      Ok(AttemptOf(Flicker, at, 0, [STEADY], Snapshot([STEADY], [], 0, None)))
  {
    assert Find([STEADY], "s") == Some(STEADY);
    assert FindAll([STEADY], ["s"], {}) == Ok([STEADY]) by {
      assert FindAll([STEADY], ["s"][1..], {"s"}) == Ok([]);
      assert [STEADY] + [] == [STEADY];
    }
  }

  /** A stable token, with the revision readable or not at its two readings. */
  ghost predicate StableWith(trace: Trace, at: Clock, ids: seq<string>, n: nat, first: bool, second: bool) {
    && Versioned(trace) && Ticking(at) && WholeAttempt(trace, at, ids, n).Ok?
    && WholeAttempt(trace, at, ids, n).value.token.status == Stable
    && trace(at(n, 2)).revisionReadable == first
    && trace(at(n, SecondReading(|WholeAttempt(trace, at, ids, n).value.token.sessions|) + 2)).revisionReadable
      == second
  }

  ghost predicate InWindow(trace: Trace, at: Clock, ids: seq<string>, n: nat, t: nat)
    requires WholeAttempt(trace, at, ids, n).Ok?
  {
    at(n, 2) <= t <= at(n, SecondReading(|WholeAttempt(trace, at, ids, n).value.token.sessions|) + 2)
  }

  ghost predicate DescribedAt(trace: Trace, at: Clock, ids: seq<string>, n: nat, t: nat)
    requires WholeAttempt(trace, at, ids, n).Ok?
  {
    DescribesRegistryAt(WholeAttempt(trace, at, ids, n).value.token, ReadSnapshot(trace, at, n, 0), trace(t))
  }

  /** Every stable token under this readability describes the registry during its whole window. */
  ghost predicate AlwaysHeld(first: bool, second: bool) {
    forall trace: Trace, at: Clock, ids: seq<string>, n: nat, t: nat ::
      StableWith(trace, at, ids, n, first, second) && InWindow(trace, at, ids, n, t) ==>
        DescribedAt(trace, at, ids, n, t)
  }

  lemma FlickerBreaksTheToken(at: Clock)
    requires forall n, i :: at(n, i) == i
    ensures StableWith(Flicker, at, ["s"], 0, false, false)
    ensures InWindow(Flicker, at, ["s"], 0, 4) && !DescribedAt(Flicker, at, ["s"], 0, 4)
  {
    FlickerIsStable(at);
    FlickerIsSelected(at);
    assert STEADY in [STEADY] && STEADY !in Flicker(4).sessions;
  }

  lemma ReadableHolds(trace: Trace, at: Clock, ids: seq<string>, n: nat, t: nat, first: bool, second: bool)
    requires StableWith(trace, at, ids, n, first, second) && InWindow(trace, at, ids, n, t) && (first || second)
    ensures DescribedAt(trace, at, ids, n, t)
  {
    StableHeldThroughout(trace, at, ids, n, WholeAttempt(trace, at, ids, n).value.token, t);
  }

  /** A stable token describes the registry during its whole window, whatever else happens, if and
      only if the revision can be read; a revision readable at one of the two readings only makes
      no token stable. */
  lemma HeldIffRevisionReadable(first: bool, second: bool)
    ensures AlwaysHeld(first, second) <==> first || second
  {
    if first || second {
      forall trace: Trace, at: Clock, ids: seq<string>, n: nat, t: nat
        | StableWith(trace, at, ids, n, first, second) && InWindow(trace, at, ids, n, t)
        ensures DescribedAt(trace, at, ids, n, t)
      {
        ReadableHolds(trace, at, ids, n, t, first, second);
      }
    } else {
      var at := (n: nat, k: nat) => k;
      FlickerBreaksTheToken(at);
    }
  }

  // ----- A stale token returned at once

  /** The only session changes between the two readings, and its files cannot be read. */
  function Losing(t: nat): Moment {
    Moment([if t >= 6 then STEADY.(details := "b") else STEADY], [], 0, t, true, map["s" := "w"], map[])
  }

  /** With any number of retries left, the first attempt's stale token is returned. */
  lemma StaleAtOnce(maxRetries: nat) returns (at: Clock)
    ensures Versioned(Losing) && Ticking(at) && StaleAttempt(Losing, at, ["s"], 0)
    ensures Settle(TriesOf(Losing, at, ["s"]), 0, maxRetries) == Ok(WholeAttempt(Losing, at, ["s"], 0).value.token)
  {
    at := (n: nat, k: nat) => k;
    LosingIsStale(at);
    StaleIsReturnedIff(Losing, at, ["s"], 0, maxRetries);
  }

  lemma LosingIsStale(at: Clock)
    requires forall n, i :: at(n, i) == i
    ensures StaleAttempt(Losing, at, ["s"], 0) && !FilesReadable(Losing, at, ["s"], 0)
  {
    assert Find([STEADY], "s") == Some(STEADY);
    assert FindAll([STEADY], ["s"], {}) == Ok([STEADY]) by {
      assert FindAll([STEADY], ["s"][1..], {"s"}) == Ok([]);
      assert [STEADY] + [] == [STEADY];
    }
    LosingWorktrees(at, 3);
    LosingWorktrees(at, 5);
    assert FilesLost(Losing, at, 0, [STEADY], 0);
    assert ReadSnapshot(Losing, at, 0, 0).revision == Some(2) && ReadSnapshot(Losing, at, 0, 6).revision == Some(8);
  }

  lemma LosingWorktrees(at: Clock, k: nat)
    requires forall n, i :: at(n, i) == i
    ensures ReadPhysical(Losing, at, 0, k, [STEADY]) == Some(["w"])
  {
    assert PhysicalOf(Losing, at, 0, k, [STEADY], 0) == Some("w");
    assert ReadPhysical(Losing, at, 0, k, [STEADY]).value == ["w"];
  }
}
