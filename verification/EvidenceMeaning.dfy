/** What an observation looks at and what its token says, in terms of the readings alone. */
module EvidenceMeaning {
  import opened CoordinationEvidence
  import opened ResourceClaims
  import opened Selections
  import opened Wrappers

  // ----- Which sessions are observed

  /** The `k`-th record is the first with the identifier. */
  predicate FirstAt(sessions: seq<Session>, id: string, k: int) {
    0 <= k < |sessions| && sessions[k].sessionId == id && forall j :: 0 <= j < k ==> sessions[j].sessionId != id
  }

  ghost predicate FirstRecord(sessions: seq<Session>, id: string, r: Session) {
    exists k :: FirstAt(sessions, id, k) && sessions[k] == r
  }

  predicate MentionedAt(ids: seq<string>, id: string, k: int) {
    0 <= k < |ids| && ids[k] == id && forall j :: 0 <= j < k ==> ids[j] != id
  }

  /** In the order in which the identifiers are first mentioned, each once. */
  ghost predicate InOrderOfMention(records: seq<Session>, ids: seq<string>) {
    forall i, j, a, b ::
      && 0 <= i < j < |records|
      && MentionedAt(ids, records[i].sessionId, a) && MentionedAt(ids, records[j].sessionId, b)
      ==> a < b
  }

  /** Exactly the first records of the identifiers. */
  ghost predicate NamedOnce(records: seq<Session>, sessions: seq<Session>, ids: seq<string>) {
    && (forall r :: r in records ==> r.sessionId in ids && FirstRecord(sessions, r.sessionId, r))
    && (forall id :: id in ids ==> Lists(records, id))
    && InOrderOfMention(records, ids)
  }

  function Active(): Session -> bool {
    (s: Session) => s.active
  }

  /** Without identifiers the active records, with identifiers the records they name. */
  ghost predicate Observed(records: seq<Session>, sessions: seq<Session>, ids: seq<string>) {
    if ids == [] then KeepsExactly(records, sessions, Active()) else NamedOnce(records, sessions, ids)
  }

  lemma {:induction false} ActiveAreKept(sessions: seq<Session>)
    ensures KeepsExactly(ActiveOnly(sessions), sessions, Active())
  {
    if sessions == [] {
      NothingKept(Active());
    } else {
      ActiveAreKept(sessions[1..]);
      OneMoreKept(ActiveOnly(sessions[1..]), sessions, Active());
    }
  }

  lemma {:induction false} FoundIsFirst(sessions: seq<Session>, id: string)
    ensures match Find(sessions, id) case None => !Lists(sessions, id) case Some(r) => FirstRecord(sessions, id, r)
  {
    if sessions != [] {
      if sessions[0].sessionId == id {
        assert FirstAt(sessions, id, 0);
      } else {
        FoundIsFirst(sessions[1..], id);
        if Find(sessions[1..], id).Some? {
          var k :| FirstAt(sessions[1..], id, k) && sessions[1..][k] == Find(sessions[1..], id).value;
          assert forall j :: 0 < j <= k ==> sessions[j] == sessions[1..][j - 1];
          assert FirstAt(sessions, id, k + 1);
        } else {
          assert forall r :: r in sessions ==> r == sessions[0] || r in sessions[1..];
        }
      }
    }
  }

  /** The records of the identifiers that were not seen before. */
  ghost predicate NamedAnew(records: seq<Session>, sessions: seq<Session>, ids: seq<string>, seen: set<string>) {
    && (forall r :: r in records ==>
          r.sessionId in ids && r.sessionId !in seen && FirstRecord(sessions, r.sessionId, r))
    && (forall id :: id in ids && id !in seen ==> Lists(records, id))
    && InOrderOfMention(records, ids)
  }

  lemma MentionShifts(ids: seq<string>, id: string, k: int)
    requires ids != [] && id != ids[0] && MentionedAt(ids, id, k)
    ensures MentionedAt(ids[1..], id, k - 1)
  {
  }

  lemma OrderWithoutTheFirst(records: seq<Session>, ids: seq<string>)
    requires ids != [] && InOrderOfMention(records, ids[1..])
    requires forall r :: r in records ==> r.sessionId != ids[0]
    ensures InOrderOfMention(records, ids)
  {
    forall i, j, a, b | 0 <= i < j < |records| && MentionedAt(ids, records[i].sessionId, a)
        && MentionedAt(ids, records[j].sessionId, b)
      ensures a < b
    {
      assert records[i] in records && records[j] in records;
      MentionShifts(ids, records[i].sessionId, a);
      MentionShifts(ids, records[j].sessionId, b);
    }
  }

  lemma OrderWithTheFirst(first: Session, records: seq<Session>, ids: seq<string>)
    requires ids != [] && first.sessionId == ids[0] && InOrderOfMention(records, ids)
    requires forall r :: r in records ==> r.sessionId != ids[0]
    ensures InOrderOfMention([first] + records, ids)
  {
    var all := [first] + records;
    forall i, j, a, b | 0 <= i < j < |all| && MentionedAt(ids, all[i].sessionId, a)
        && MentionedAt(ids, all[j].sessionId, b)
      ensures a < b
    {
      assert all[j] == records[j - 1];
      if i == 0 {
        assert records[j - 1] in records && a == 0;
      } else {
        assert all[i] == records[i - 1];
      }
    }
  }

  lemma OneMoreNamed(rest: seq<Session>, sessions: seq<Session>, ids: seq<string>, seen: set<string>, first: Session)
    requires ids != [] && NamedAnew(rest, sessions, ids[1..], seen + {ids[0]}) && FirstRecord(sessions, ids[0], first)
    ensures NamedAnew((if ids[0] in seen then [] else [first]) + rest, sessions, ids, seen)
  {
    var k :| FirstAt(sessions, ids[0], k) && sessions[k] == first;
    assert first.sessionId == ids[0] && ids == [ids[0]] + ids[1..];
    var all := (if ids[0] in seen then [] else [first]) + rest;
    OrderWithoutTheFirst(rest, ids);
    OrderWithTheFirst(first, rest, ids);
    assert forall r :: r in all <==> r in rest || (ids[0] !in seen && r == first);
    forall id | id in ids && id !in seen ensures Lists(all, id) {
      if id == ids[0] {
        assert first in all;
      } else {
        assert Lists(rest, id);
      }
    }
    if ids[0] in seen { assert all == rest; }
  }

  predicate AllListed(sessions: seq<Session>, ids: seq<string>) {
    forall id :: id in ids ==> Lists(sessions, id)
  }

  lemma {:induction false} AllFoundAreNamed(sessions: seq<Session>, ids: seq<string>, seen: set<string>)
    ensures match FindAll(sessions, ids, seen)
      case Err(e) => e == SessionNotFound && !AllListed(sessions, ids)
      case Ok(records) => AllListed(sessions, ids) && NamedAnew(records, sessions, ids, seen)
  {
    if ids != [] {
      FoundIsFirst(sessions, ids[0]);
      AllFoundAreNamed(sessions, ids[1..], seen + {ids[0]});
      assert ids == [ids[0]] + ids[1..];
      if Find(sessions, ids[0]).Some? {
        var first := Find(sessions, ids[0]).value;
        assert first in sessions by { FoundIsListed(sessions, ids[0]); }
        assert first.sessionId == ids[0];
        if FindAll(sessions, ids[1..], seen + {ids[0]}).Ok? {
          OneMoreNamed(FindAll(sessions, ids[1..], seen + {ids[0]}).value, sessions, ids, seen, first);
        }
      }
    }
  }

  /** A selection fails exactly when some identifier has no record; otherwise it is what is to be observed. */
  lemma SelectionMeans(sessions: seq<Session>, ids: seq<string>)
    ensures match SelectSessions(sessions, ids)
      case Err(e) => e == SessionNotFound && !AllListed(sessions, ids)
      case Ok(records) => AllListed(sessions, ids) && Observed(records, sessions, ids)
  {
    if ids == [] { ActiveAreKept(sessions); } else { AllFoundAreNamed(sessions, ids, {}); }
  }

  // ----- What the token says

  /** A token's sessions are those to be observed at its first reading, and its claims are exactly theirs. */
  lemma TokenSelects(trace: Trace, at: Clock, ids: seq<string>, n: nat)
    requires WholeAttempt(trace, at, ids, n).Ok?
    ensures var token := WholeAttempt(trace, at, ids, n).value.token;
      && AllListed(trace(at(n, 0)).sessions, ids) && Observed(token.sessions, trace(at(n, 0)).sessions, ids)
      && KeepsExactly(token.claims, trace(at(n, 1)).claims, ClaimsOf(token.sessions))
  {
    SelectionMeans(trace(at(n, 0)).sessions, ids);
    ClaimsAreSelected(trace(at(n, 1)).claims, WholeAttempt(trace, at, ids, n).value.token.sessions);
  }

  lemma LastAttempt(trace: Trace, at: Clock, ids: seq<string>, maxRetries: nat, token: Token)
    requires Settle(TriesOf(trace, at, ids), 0, maxRetries) == Ok(token)
    ensures token.attempts >= 1 && WholeAttempt(trace, at, ids, token.attempts - 1).Ok?
    ensures WholeAttempt(trace, at, ids, token.attempts - 1).value.token == token
  {
    var k := SettlesOnTheFirst(TriesOf(trace, at, ids), 0, maxRetries);
    AttemptIsNumbered(trace, at, ids, k);
  }

  /** Whatever token the caller receives is such a token, that of the last attempt. */
  lemma ObservationSelects(trace: Trace, at: Clock, ids: seq<string>, maxRetries: nat, token: Token)
    requires Settle(TriesOf(trace, at, ids), 0, maxRetries) == Ok(token)
    ensures token.attempts >= 1
    ensures Observed(token.sessions, trace(at(token.attempts - 1, 0)).sessions, ids)
    ensures KeepsExactly(token.claims, trace(at(token.attempts - 1, 1)).claims, ClaimsOf(token.sessions))
  {
    LastAttempt(trace, at, ids, maxRetries, token);
    TokenSelects(trace, at, ids, token.attempts - 1);
  }

  /** Instead of a token the caller receives at most the report of a missing session. */
  lemma {:induction false} ErrorsAreMissing(trace: Trace, at: Clock, ids: seq<string>, n: nat, maxRetries: nat)
    requires n <= maxRetries && Settle(TriesOf(trace, at, ids), n, maxRetries).Err?
    ensures Settle(TriesOf(trace, at, ids), n, maxRetries).error == SessionNotFound
    decreases maxRetries - n
  {
    var tries := TriesOf(trace, at, ids);
    SelectionMeans(trace(at(n, 0)).sessions, ids);
    if tries(n).Ok? { ErrorsAreMissing(trace, at, ids, n + 1, maxRetries); }
  }

  // ----- What is refused

  /** The record is one of those to be observed. */
  ghost predicate ToObserve(sessions: seq<Session>, ids: seq<string>, r: Session) {
    if ids == [] then r in sessions && r.active else exists id :: id in ids && FirstRecord(sessions, id, r)
  }

  lemma ObservedElements(records: seq<Session>, sessions: seq<Session>, ids: seq<string>)
    requires Observed(records, sessions, ids)
    ensures forall r :: r in records <==> ToObserve(sessions, ids, r)
  {
    if ids == [] {
      KeptElements(records, sessions, Active());
    } else {
      forall id, r | id in ids && FirstRecord(sessions, id, r) ensures r in records {
        var k :| FirstAt(sessions, id, k) && sessions[k] == r;
        var other :| other in records && other.sessionId == id;
        var l :| FirstAt(sessions, id, l) && sessions[l] == other;
      }
    }
  }

  /** An observation is refused for an identifier without a record, for having nothing to observe, and for a record
      of another repository, in this order, and for nothing else. */
  lemma RefusedIff(trace: Trace, at: Clock, ids: seq<string>, repositoryId: string)
    ensures var sessions := trace(at(0, 0)).sessions;
      FirstCheck(trace, at, ids, repositoryId) ==
        if !AllListed(sessions, ids) || !(exists r :: ToObserve(sessions, ids, r)) then Some(SessionNotFound)
        else if exists r :: ToObserve(sessions, ids, r) && r.repositoryId != repositoryId then Some(RepositoryMismatch)
        else None
  {
    var sessions := trace(at(0, 0)).sessions;
    SelectionMeans(sessions, ids);
    var selected := SelectSessions(sessions, ids);
    if selected.Ok? {
      ObservedElements(selected.value, sessions, ids);
      if selected.value != [] { assert selected.value[0] in selected.value; }
    }
  }

  // ----- What its status means

  /** The worktrees of all the sessions can be verified from the `k`-th reading on. */
  ghost predicate Verified(trace: Trace, at: Clock, n: nat, records: seq<Session>, k: nat) {
    forall i :: 0 <= i < |records| ==>
      records[i].active && records[i].sessionId in trace(at(n, k + i)).physical
  }

  /** Both readings of the registry agree about the sessions: revision, generation, records and claims. */
  ghost predicate RegistryAgrees(trace: Trace, at: Clock, n: nat, records: seq<Session>) {
    var f := 3 + 3 * |records|;
    && trace(at(n, 2)).revisionReadable == trace(at(n, f + 2)).revisionReadable
    && (trace(at(n, 2)).revisionReadable ==> trace(at(n, 2)).revision == trace(at(n, f + 2)).revision)
    && trace(at(n, 1)).generation == trace(at(n, f + 1)).generation
    && SameRecords(trace(at(n, 0)).sessions, trace(at(n, f)).sessions, records)
    && SameClaims(trace(at(n, 1)).claims, trace(at(n, f + 1)).claims, records)
  }

  ghost predicate SameClaims(left: seq<Claim>, right: seq<Claim>, sessions: seq<Session>) {
    exists claims :: KeepsExactly(claims, left, ClaimsOf(sessions)) && KeepsExactly(claims, right, ClaimsOf(sessions))
  }

  /** The session's worktree reads the same twice, and so do its files if they could be read. */
  ghost predicate WorktreeAgrees(trace: Trace, at: Clock, n: nat, records: seq<Session>, i: int)
    requires Verified(trace, at, n, records, 3) && Verified(trace, at, n, records, 3 + 2 * |records|)
    requires 0 <= i < |records|
  {
    var id, m := records[i].sessionId, |records|;
    var built, again := trace(at(n, 3 + m + i)).files, trace(at(n, 6 + 3 * m + i)).files;
    && trace(at(n, 3 + i)).physical[id] == trace(at(n, 3 + 2 * m + i)).physical[id]
    && (id in built ==> id in again && again[id] == built[id])
  }

  predicate FilesRead(trace: Trace, at: Clock, n: nat, records: seq<Session>) {
    forall i :: 0 <= i < |records| ==> records[i].sessionId in trace(at(n, 3 + |records| + i)).files
  }

  /** The status of an attempt over these records. */
  ghost function StatusOf(trace: Trace, at: Clock, n: nat, records: seq<Session>): Status {
    if !Verified(trace, at, n, records, 3) || !Verified(trace, at, n, records, 3 + 2 * |records|) then Unavailable
    else if !RegistryAgrees(trace, at, n, records)
            || !(forall i :: 0 <= i < |records| ==> WorktreeAgrees(trace, at, n, records, i)) then Stale
    else if !FilesRead(trace, at, n, records) then Unavailable
    else Stable
  }

  lemma PhysicalMeans(trace: Trace, at: Clock, n: nat, k: nat, records: seq<Session>)
    ensures ReadPhysical(trace, at, n, k, records).Some? <==> Verified(trace, at, n, records, k)
    ensures Verified(trace, at, n, records, k) ==> forall i :: 0 <= i < |records| ==>
      ReadPhysical(trace, at, n, k, records).value[i] == trace(at(n, k + i)).physical[records[i].sessionId]
  {
    forall i | 0 <= i < |records|
      ensures PhysicalOf(trace, at, n, k, records, i).Some? <==>
        records[i].active && records[i].sessionId in trace(at(n, k + i)).physical
    {
    }
  }

  lemma RecordsAgree(left: seq<Session>, right: seq<Session>, records: seq<Session>)
    ensures SessionsAmong(left, IdsOf(records)) == SessionsAmong(right, IdsOf(records)) <==>
      SameRecords(left, right, records)
  {
    RecordsAreSelected(left, records);
    RecordsAreSelected(right, records);
    if kept :| KeepsExactly(kept, left, RecordsOf(records)) && KeepsExactly(kept, right, RecordsOf(records)) {
      KeptIsUnique(kept, SessionsAmong(left, IdsOf(records)), left, RecordsOf(records));
      KeptIsUnique(kept, SessionsAmong(right, IdsOf(records)), right, RecordsOf(records));
    }
  }

  lemma ClaimsAgree(left: seq<Claim>, right: seq<Claim>, records: seq<Session>)
    ensures ClaimsAmong(left, IdsOf(records)) == ClaimsAmong(right, IdsOf(records)) <==>
      SameClaims(left, right, records)
  {
    ClaimsAreSelected(left, records);
    ClaimsAreSelected(right, records);
    if kept :| KeepsExactly(kept, left, ClaimsOf(records)) && KeepsExactly(kept, right, ClaimsOf(records)) {
      KeptIsUnique(kept, ClaimsAmong(left, IdsOf(records)), left, ClaimsOf(records));
      KeptIsUnique(kept, ClaimsAmong(right, IdsOf(records)), right, ClaimsOf(records));
    }
  }

  lemma RegistryMeans(trace: Trace, at: Clock, n: nat, records: seq<Session>)
    ensures SameSnapshot(ReadSnapshot(trace, at, n, 0), ReadSnapshot(trace, at, n, SecondReading(|records|)),
                         IdsOf(records))
      <==> RegistryAgrees(trace, at, n, records)
  {
    var f := SecondReading(|records|);
    RecordsAgree(trace(at(n, 0)).sessions, trace(at(n, f)).sessions, records);
    ClaimsAgree(trace(at(n, 1)).claims, trace(at(n, f + 1)).claims, records);
  }

  lemma WorktreeMeans(trace: Trace, at: Clock, n: nat, records: seq<Session>, i: nat, first: string, second: string)
    requires Verified(trace, at, n, records, 3) && Verified(trace, at, n, records, 3 + 2 * |records|) && i < |records|
    requires first == trace(at(n, 3 + i)).physical[records[i].sessionId]
    requires second == trace(at(n, 3 + 2 * |records| + i)).physical[records[i].sessionId]
    ensures WorktreeAgrees(trace, at, n, records, i) <==>
      first == second && SamePaths(trace, at, n, records, i, first, second)
  {
    assert SecondReading(|records|) + 3 + i == 6 + 3 * |records| + i;
  }

  lemma WorktreesMean(trace: Trace, at: Clock, n: nat, records: seq<Session>, first: seq<string>, second: seq<string>)
    requires Verified(trace, at, n, records, 3) && Verified(trace, at, n, records, 3 + 2 * |records|)
    requires ReadPhysical(trace, at, n, 3, records) == Some(first)
    requires ReadPhysical(trace, at, n, 3 + 2 * |records|, records) == Some(second)
    ensures WorktreesUnchanged(trace, at, n, records, first, second, |records|) <==>
      forall i :: 0 <= i < |records| ==> WorktreeAgrees(trace, at, n, records, i)
  {
    PhysicalMeans(trace, at, n, 3, records);
    PhysicalMeans(trace, at, n, 3 + 2 * |records|, records);
    forall i | 0 <= i < |records|
      ensures WorktreeAgrees(trace, at, n, records, i) <==>
        first[i] == second[i] && SamePaths(trace, at, n, records, i, first[i], second[i])
    {
      WorktreeMeans(trace, at, n, records, i, first[i], second[i]);
    }
  }

  lemma FilesMean(trace: Trace, at: Clock, n: nat, records: seq<Session>)
    ensures FilesUnavailable(trace, at, n, records, |records|) <==> !FilesRead(trace, at, n, records)
  {
    forall i | 0 <= i < |records|
      ensures FilesLost(trace, at, n, records, i) <==>
        records[i].sessionId !in trace(at(n, 3 + |records| + i)).files
    {
    }
  }

  /** The status, from what the stages of the attempt found. */
  function StatusFrom(verified: bool, same: bool, lost: bool): Status {
    if !verified then Unavailable else if !same then Stale else if lost then Unavailable else Stable
  }

  lemma UnverifiedIsUnavailable(trace: Trace, at: Clock, n: nat, records: seq<Session>, initial: Snapshot)
    requires ReadPhysical(trace, at, n, 3, records) == None
      || ReadPhysical(trace, at, n, 3 + 2 * |records|, records) == None
    ensures AttemptOf(trace, at, n, records, initial).token.status == StatusFrom(false, false, false)
  {
  }

  lemma VerifiedIsCompared(trace: Trace, at: Clock, n: nat, records: seq<Session>, initial: Snapshot,
      first: seq<string>, second: seq<string>)
    requires ReadPhysical(trace, at, n, 3, records) == Some(first)
    requires ReadPhysical(trace, at, n, 3 + 2 * |records|, records) == Some(second)
    ensures AttemptOf(trace, at, n, records, initial).token.status ==
      StatusFrom(true,
                 SameSnapshot(initial, ReadSnapshot(trace, at, n, SecondReading(|records|)), IdsOf(records))
                   && WorktreesUnchanged(trace, at, n, records, first, second, |records|),
                 FilesUnavailable(trace, at, n, records, |records|))
  {
  }

  lemma AttemptIsFounded(trace: Trace, at: Clock, n: nat, records: seq<Session>)
    ensures AttemptOf(trace, at, n, records, ReadSnapshot(trace, at, n, 0)).token.status
      == StatusOf(trace, at, n, records)
  {
    var initial := ReadSnapshot(trace, at, n, 0);
    var first, second := ReadPhysical(trace, at, n, 3, records), ReadPhysical(trace, at, n, 3 + 2 * |records|, records);
    PhysicalMeans(trace, at, n, 3, records);
    PhysicalMeans(trace, at, n, 3 + 2 * |records|, records);
    if first == None || second == None {
      UnverifiedIsUnavailable(trace, at, n, records, initial);
    } else {
      VerifiedIsCompared(trace, at, n, records, initial, first.value, second.value);
      RegistryMeans(trace, at, n, records);
      FilesMean(trace, at, n, records);
      WorktreesMean(trace, at, n, records, first.value, second.value);
    }
  }

  /** An attempt is stable if and only if both readings agree about everything and all files could be read; it is
      stale if and only if all worktrees could be verified and something differs. */
  lemma StatusIsFounded(trace: Trace, at: Clock, ids: seq<string>, n: nat)
    requires WholeAttempt(trace, at, ids, n).Ok?
    ensures var token := WholeAttempt(trace, at, ids, n).value.token;
      token.status == StatusOf(trace, at, n, token.sessions)
  {
    AttemptIsFounded(trace, at, n, SelectSessions(trace(at(n, 0)).sessions, ids).value);
  }
}
