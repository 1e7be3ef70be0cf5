/** Exactly when the reports of finished handoffs can be relied on, over all runs. */
module HandoffGuarantees {
  import opened HandoffProtocol
  import opened HandoffReports
  import opened HandoffRuns
  import opened HandoffWitness
  import opened ResourceHandoff

  /** A run from its beginning in which client `i` ended with a report. */
  ghost predicate EndsWithReport(w: World, actions: seq<Action>, i: nat) {
    && w.clients == [] && w.transfers == [] && ValidHistory(w.registry.completed)
    && i < |After(w, actions).clients| && Reported(After(w, actions).clients[i])
  }

  /** The registry is still at the generation of the report. */
  ghost predicate IsCurrent(w: World, actions: seq<Action>, i: nat)
    requires EndsWithReport(w, actions, i)
  {
    ReportOf(After(w, actions).clients[i]).claimSetGeneration == After(w, actions).registry.claimSetGeneration
  }

  // ----- "The source keeps its claim"

  ghost predicate SaysRetained(w: World, actions: seq<Action>, i: nat, named: bool, current: bool) {
    && EndsWithReport(w, actions, i) && ReportOf(After(w, actions).clients[i]).sourceRetained
    && ReportOf(After(w, actions).clients[i]).sourceClaim.Some? == named && IsCurrent(w, actions, i) == current
  }

  /** In every run, such a report is true. */
  ghost predicate RetainedIsTrue(named: bool, current: bool) {
    forall w: World, actions: seq<Action>, i: nat :: SaysRetained(w, actions, i, named, current) ==>
      SourceHolds(After(w, actions).registry, After(w, actions).clients[i].normalized)
  }

  lemma OneFalseRetention(w: World, actions: seq<Action>, i: nat, named: bool, current: bool)
    requires SaysRetained(w, actions, i, named, current)
    requires !SourceHolds(After(w, actions).registry, After(w, actions).clients[i].normalized)
    ensures !RetainedIsTrue(named, current)
  {
  }

  lemma NamedButOld()
    ensures !RetainedIsTrue(true, false)
  {
    var w := World(BEFORE, [], []);
    StaleRun(w);
    OneFalseRetention(w, LeaveFirst(), 0, true, false);
  }

  lemma CurrentButUnnamed()
    ensures !RetainedIsTrue(false, true)
  {
    var w := World(NOTHING, [], []);
    NothingHeldRun(w);
    OneFalseRetention(w, AskFirst(), 0, false, true);
  }

  lemma NeitherNamedNorCurrent()
    ensures !RetainedIsTrue(false, false)
  {
    var w := World(NOTHING, [], []);
    NothingHeldRun(w);
    Snoc(w, AskFirst(), Others(LEFT));
    assert FaithfulChange(NOTHING, LEFT);
    OneFalseRetention(w, AskFirst() + [Others(LEFT)], 0, false, false);
  }

  lemma NamedAndCurrent(w: World, actions: seq<Action>, i: nat)
    requires SaysRetained(w, actions, i, true, true)
    ensures SourceHolds(After(w, actions).registry, After(w, actions).clients[i].normalized)
  {
    EveryReportIsTrue(w, actions);
    assert TellsTruth(After(w, actions).clients[i], After(w, actions).registry);
  }

  /** A report that the source keeps its claim, of whatever status, can be relied on if and only if it
      names the claim and the registry is still at its generation. */
  lemma RetainedIsTrueIff(named: bool, current: bool)
    ensures RetainedIsTrue(named, current) <==> named && current
  {
    if named && current {
      forall w: World, actions: seq<Action>, i: nat | SaysRetained(w, actions, i, true, true)
        ensures SourceHolds(After(w, actions).registry, After(w, actions).clients[i].normalized)
      {
        NamedAndCurrent(w, actions, i);
      }
    } else if named {
      NamedButOld();
    } else if current {
      CurrentButUnnamed();
    } else {
      NeitherNamedNorCurrent();
    }
  }

  // ----- "The operation was done already"

  ghost predicate SaysDone(w: World, actions: seq<Action>, i: nat, named: bool, current: bool) {
    && EndsWithReport(w, actions, i) && ReportOf(After(w, actions).clients[i]).status == Unchanged
    && ReportOf(After(w, actions).clients[i]).destinationClaim.Some? == named && IsCurrent(w, actions, i) == current
  }

  ghost predicate DoneMeansHeld(named: bool, current: bool) {
    forall w: World, actions: seq<Action>, i: nat :: SaysDone(w, actions, i, named, current) ==>
      DestinationHolds(After(w, actions).registry, After(w, actions).clients[i].normalized)
  }

  lemma OneEmptyAnswer(w: World, actions: seq<Action>, i: nat, named: bool, current: bool)
    requires SaysDone(w, actions, i, named, current)
    requires !DestinationHolds(After(w, actions).registry, After(w, actions).clients[i].normalized)
    ensures !DoneMeansHeld(named, current)
  {
  }

  lemma BackMeansNotHeld(g: Registry)
    requires g.claims == BACK.claims
    ensures !DestinationHolds(g, REQUEST) && !DestinationHolds(g, REQUEST_AGAIN)
  {
    ExactBefore();
    assert g.claims == BEFORE.claims;
  }

  /** Once others act, the reports stay and the registry is theirs. */
  lemma OthersFollow(w: World, actions: seq<Action>, g: Registry)
    requires FaithfulChange(After(w, actions).registry, g)
    ensures After(w, actions + [Others(g)]) == After(w, actions).(registry := g)
  {
    Snoc(w, actions, Others(g));
  }

  lemma MovedOnSince()
    ensures !DoneMeansHeld(true, false)
  {
    var w := World(BEFORE, [], []);
    RetryAfterLostAnswer(w);
    OthersFollow(w, RetryLost(), BACK);
    BackMeansNotHeld(BACK);
    OneEmptyAnswer(w, RetryLost() + [Others(BACK)], 1, true, false);
  }

  lemma HandedBackIsDone()
    ensures !DoneMeansHeld(false, true)
  {
    var w := World(BEFORE, [], []);
    HandedBackRun(w);
    BackMeansNotHeld(BACK);
    OneEmptyAnswer(w, HandBack(), 1, false, true);
  }

  lemma HandedBackAndOld(later: Registry)
    requires later == BACK.(claimSetGeneration := 3)
    ensures !DoneMeansHeld(false, false)
  {
    var w := World(BEFORE, [], []);
    HandedBackRun(w);
    OthersFollow(w, HandBack(), later);
    BackMeansNotHeld(later);
    OneEmptyAnswer(w, HandBack() + [Others(later)], 1, false, false);
  }

  lemma NamedDestinationHolds(w: World, actions: seq<Action>, i: nat)
    requires SaysDone(w, actions, i, true, true)
    ensures DestinationHolds(After(w, actions).registry, After(w, actions).clients[i].normalized)
  {
    EveryReportIsTrue(w, actions);
    assert TellsTruth(After(w, actions).clients[i], After(w, actions).registry);
  }

  /** An answer that the operation was done already means that the destination holds the claim if and
      only if it names the destination's claim and the registry is still at its generation. */
  lemma DoneMeansHeldIff(named: bool, current: bool)
    ensures DoneMeansHeld(named, current) <==> named && current
  {
    if named && current {
      forall w: World, actions: seq<Action>, i: nat | SaysDone(w, actions, i, true, true)
        ensures DestinationHolds(After(w, actions).registry, After(w, actions).clients[i].normalized)
      {
        NamedDestinationHolds(w, actions, i);
      }
    } else if named {
      MovedOnSince();
    } else if current {
      HandedBackIsDone();
    } else {
      HandedBackAndOld(BACK.(claimSetGeneration := 3));
    }
  }
}
