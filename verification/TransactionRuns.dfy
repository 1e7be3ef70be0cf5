/** Whole runs: transactions by any sessions, in any order, with the session list changing
    in between, committed one at a time. */
module TransactionRuns {
  import opened ClaimSets
  import opened CoordinationTransactions
  import opened GlobLanguage
  import opened Generations
  import opened Replays
  import opened ResourceClaims
  import opened Resources
  import Sorting

  datatype Step =
    | Transact(request: Request, facts: FactSource)
    | SessionsChange(sessions: seq<Session>)

  /** A rejected transaction commits nothing. */
  ghost function Next(s: Snapshot, step: Step): Snapshot {
    match step
    case SessionsChange(sessions) => s.(sessions := sessions)
    case Transact(r, facts) =>
      match PlanTransaction(s, r, facts)
      case Err(_) => s
      case Ok(p) => Committed(p)
  }

  ghost function After(s: Snapshot, steps: seq<Step>): Snapshot {
    if steps == [] then s else Next(After(s, steps[..|steps| - 1]), steps[|steps| - 1])
  }

  /** Evidence is honest and session identifiers carry no NUL. */
  ghost predicate Fair(steps: seq<Step>) {
    forall k :: 0 <= k < |steps| && steps[k].Transact? ==>
      Honest(steps[k].facts) && '\0' !in steps[k].request.sessionId
  }

  lemma StepKeepsOrder(s: Snapshot, step: Step)
    requires Orderly(s.claims) && Fair([step])
    ensures Orderly(Next(s, step).claims)
    ensures Next(s, step).claimSetGeneration ==
      if Next(s, step).claims == s.claims then s.claimSetGeneration else s.claimSetGeneration + 1
  {
    assert [step][0] == step;
    if step.Transact? && PlanTransaction(s, step.request, step.facts).Ok? {
      PlanKeepsCoordination(s, step.request, step.facts);
      GenerationCountsChanges(s, step.request, step.facts);
      IdempotentPlanKeepsTheList(s, step.request, step.facts);
    }
  }

  /** Every run from an empty claim set stays coordinated, and sorted. */
  lemma {:induction false} RunsStayCoordinated(s: Snapshot, steps: seq<Step>)
    requires s.claims == [] && Fair(steps)
    ensures Orderly(After(s, steps).claims)
  {
    if steps != [] {
      RunsStayCoordinated(s, steps[..|steps| - 1]);
      StepKeepsOrder(After(s, steps[..|steps| - 1]), steps[|steps| - 1]);
    }
  }

  lemma {:induction false} AfterConcat(s: Snapshot, a: seq<Step>, b: seq<Step>)
    ensures After(s, a + b) == After(After(s, a), b)
  {
    if b == [] {
      assert a + b == a;
    } else {
      AfterConcat(s, a, b[..|b| - 1]);
      assert (a + b)[..|a + b| - 1] == a + b[..|b| - 1];
    }
  }

  /** The generation never falls, and stands still only while the claims do. */
  lemma {:induction false} GenerationsNeverReturn(s: Snapshot, steps: seq<Step>)
    requires Orderly(s.claims) && Fair(steps)
    ensures Orderly(After(s, steps).claims)
    ensures After(s, steps).claimSetGeneration >= s.claimSetGeneration
    ensures After(s, steps).claimSetGeneration == s.claimSetGeneration ==> After(s, steps).claims == s.claims
  {
    if steps != [] {
      GenerationsNeverReturn(s, steps[..|steps| - 1]);
      StepKeepsOrder(After(s, steps[..|steps| - 1]), steps[|steps| - 1]);
    }
  }

  /** Two moments of one run with equal generations have equal claim lists: what a caller read at a
      generation still holds when the generation is found unchanged. */
  lemma EqualGenerationsEqualClaims(s: Snapshot, before: seq<Step>, between: seq<Step>)
    requires s.claims == [] && Fair(before + between)
    requires After(s, before + between).claimSetGeneration == After(s, before).claimSetGeneration
    ensures After(s, before + between).claims == After(s, before).claims
  {
    assert forall k :: 0 <= k < |before| ==> (before + between)[k] == before[k];
    assert forall k :: 0 <= k < |between| ==> (before + between)[|before| + k] == between[k];
    RunsStayCoordinated(s, before);
    GenerationsNeverReturn(After(s, before), between);
    AfterConcat(s, before, between);
  }

  /** Transactions of other sessions, however many, leave a session's claims as they were. */
  lemma {:induction false} OthersCannotTouch(s: Snapshot, steps: seq<Step>, sessionId: string)
    requires Orderly(s.claims) && Fair(steps)
    requires forall k :: 0 <= k < |steps| && steps[k].Transact? ==> steps[k].request.sessionId != sessionId
    ensures multiset(Own(After(s, steps).claims, sessionId)) == multiset(Own(s.claims, sessionId))
  {
    if steps != [] {
      var before, last := steps[..|steps| - 1], steps[|steps| - 1];
      OthersCannotTouch(s, before, sessionId);
      GenerationsNeverReturn(s, before);
      var t := After(s, before);
      if last.Transact? && PlanTransaction(t, last.request, last.facts).Ok? {
        OthersAreUntouched(t, last.request, last.facts, sessionId);
      }
    }
  }

  // ----- Authority under live execution

  ghost predicate GrantedBy(claims: seq<Claim>, sessionId: string, path: seq<string>, access: Mode) {
    exists c :: c in claims && c.sessionId == sessionId && PathMatch(Segments(c.resource), path)
      && GrantsAccess(c.mode, access)
  }

  /** The session still holds a claim on the resource, in the same group if both are writes. */
  ghost predicate KeepsPlace(claims: seq<Claim>, prior: Claim) {
    exists c :: c in claims && c.sessionId == prior.sessionId && c.resource == prior.resource
      && (prior.mode == Write && c.mode == Write ==> GroupOf(c) == GroupOf(prior))
  }

  /** While an unstopped managed execution of the session may touch a claim, every access to every
      path the claim granted is still granted after any accepted plan, and a write claim that stays
      a write claim stays in its sharing group. */
  lemma LiveAuthorityNeverShrinks(s: Snapshot, r: Request, facts: FactSource, prior: Claim, x: Execution)
    requires Coordinated(s.claims) && PlanTransaction(s, r, facts).Ok?
    requires prior in s.claims && prior.sessionId == r.sessionId && x in r.executions && Busy(x, prior)
    ensures var claims := PlanTransaction(s, r, facts).value.claims;
      && (forall path, access :: PathMatch(Segments(prior.resource), path) && GrantsAccess(prior.mode, access) ==>
            GrantedBy(claims, r.sessionId, path, access))
      && KeepsPlace(claims, prior)
  {
    var p := PlanTransaction(s, r, facts).value;
    var owner, request, m := Stages(s, r, facts);
    NextClaimsAreOwn(s.claims, r, owner, request, m);
    IndexingSortedValues(m);
    Sorting.SortKeepsElements(External(s.claims, r.sessionId) + SortedValues(m), ClaimSortKey);
    assert prior in Own(s.claims, r.sessionId);
    assert !Shrinks(prior, At(m, prior.resource));
    var c := m[prior.resource];
    assert c in SortedValues(m) && c in p.claims;
  }
}
