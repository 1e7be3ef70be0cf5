/** When an overlap graph is complete, and what a clean one proves about the claims and plans
    it was built from. */
module GraphMeaning {
  import opened GlobLanguage
  import opened OverlapGraph
  import opened ResourceClaims
  import opened ResourceCoordination
  import opened Resources
  import opened Selectors
  import opened Wrappers
  import Sorting

  // ----- Completeness

  lemma SessionsAreOfNodes(nodes: seq<Node>, id: string)
    ensures id in SessionsOf(nodes) <==> exists n :: n in nodes && n.sessionId == id
  {
    if n :| n in nodes && n.sessionId == id {
      var k :| 0 <= k < |nodes| && nodes[k] == n;
      assert SessionsOf(nodes)[k] == id;
    }
  }

  lemma SessionIdsAreDistinct(nodes: seq<Node>)
    ensures Sorting.HasDistinctKeys(SessionIds(nodes), Itself)
    ensures forall id :: id in SessionIds(nodes) <==> exists n :: n in nodes && n.sessionId == id
  {
    var ids := Sorting.Unique(SessionsOf(nodes));
    Sorting.SortSorts(ids, Itself);
    Sorting.SortKeepsElements(ids, Itself);
    Sorting.DistinctKeysAfterReordering(ids, SessionIds(nodes), Itself);
    forall id ensures id in SessionIds(nodes) <==> exists n :: n in nodes && n.sessionId == id {
      SessionsAreOfNodes(nodes, id);
    }
  }

  lemma SessionsFit(nodes: seq<Node>, maximum: nat)
    ensures |SessionIds(nodes)| <= maximum <==>
      forall n :: n in nodes ==> n.sessionId in SelectedSessions(nodes, maximum)
  {
    SessionIdsAreDistinct(nodes);
    var ids := SessionIds(nodes);
    if |ids| <= maximum {
      assert ids[..|ids|] == ids;
    } else {
      assert ids[maximum] in ids;
      var n :| n in nodes && n.sessionId == ids[maximum];
      assert n.sessionId !in ids[..maximum] by {
        assert forall k :: 0 <= k < maximum ==> Itself(ids[k]) != Itself(ids[maximum]);
      }
    }
  }

  lemma {:induction false} NothingOmitted(nodes: seq<Node>, sessions: set<string>)
    requires forall n :: n in nodes ==> n.selectors != []
    ensures OmittedSelectors(nodes, sessions) == 0 <==> forall n :: n in nodes ==> n.sessionId in sessions
    ensures OmittedSelectors(nodes, sessions) == 0 ==> OfSessions(nodes, sessions) == nodes
  {
    if nodes != [] {
      NothingOmitted(nodes[1..], sessions);
      assert nodes == [nodes[0]] + nodes[1..];
    }
  }

  lemma {:induction false} LimitOmitsNothing(nodes: seq<Node>, maximum: nat)
    ensures Limit(nodes, maximum).used <= maximum
    ensures SelectorCount(nodes) <= maximum ==> Limit(nodes, maximum) == Limited(nodes, SelectorCount(nodes), 0)
  {
    if nodes != [] {
      var last := |nodes| - 1;
      assert nodes == nodes[..last] + [nodes[last]];
      CountConcat(nodes[..last], [nodes[last]]);
      LimitOmitsNothing(nodes[..last], maximum);
    }
  }

  lemma SelectorsFit(nodes: seq<Node>, maximum: nat)
    ensures Limit(nodes, maximum).omitted == 0 <==> SelectorCount(nodes) <= maximum
    ensures SelectorCount(nodes) <= maximum ==> Limit(nodes, maximum).nodes == nodes
  {
    LimitOmitsNothing(nodes, maximum);
    LimitKeeps(nodes, maximum);
  }

  /** Nothing is lost to the first two bounds exactly when both are large enough. */
  lemma NothingLost(nodes: seq<Node>, bounds: Bounds)
    requires AllWellFormed(nodes)
    ensures SelectorsLost(nodes, bounds) == 0 <==>
      |SessionIds(nodes)| <= bounds.maxSessions && SelectorCount(nodes) <= bounds.maxSelectors
    ensures SelectorsLost(nodes, bounds) == 0 ==> Survivors(nodes, bounds) == nodes
  {
    var sessions := SelectedSessions(nodes, bounds.maxSessions);
    SessionsFit(nodes, bounds.maxSessions);
    NothingOmitted(nodes, sessions);
    SelectorsFit(OfSessions(nodes, sessions), bounds.maxSelectors);
  }

  /** A graph is complete exactly when every bound admits its input: any session, selector or
      pair left out makes it incomplete. */
  lemma CompleteIffNothingIsLeftOut(nodes: seq<Node>, bounds: Bounds)
    requires AllWellFormed(nodes)
    ensures GraphOf(nodes, bounds).complete <==>
      && |SessionIds(nodes)| <= bounds.maxSessions
      && SelectorCount(nodes) <= bounds.maxSelectors
      && |PairsOf(nodes)| <= bounds.maxPairs
    ensures GraphOf(nodes, bounds).complete ==> GraphOf(nodes, bounds).omittedSessions == 0
  {
    NothingLost(nodes, bounds);
    if GraphOf(nodes, bounds).complete {
      SelectedAreAll(nodes, bounds.maxSessions);
    }
  }

  lemma {:induction false} DistinctSize(ids: seq<string>)
    requires forall i, j :: 0 <= i < j < |ids| ==> ids[i] != ids[j]
    ensures |(set id | id in ids)| == |ids|
  {
    if ids != [] {
      DistinctSize(ids[1..]);
      assert ids == [ids[0]] + ids[1..];
      assert (set id | id in ids) == (set id | id in ids[1..]) + {ids[0]};
      assert ids[0] !in ids[1..];
    }
  }

  lemma SelectedAreAll(nodes: seq<Node>, maximum: nat)
    requires |SessionIds(nodes)| <= maximum
    ensures |SelectedSessions(nodes, maximum)| == |SessionIds(nodes)|
  {
    SessionIdsAreDistinct(nodes);
    assert forall i, j :: 0 <= i < j < |SessionIds(nodes)| ==>
      Itself(SessionIds(nodes)[i]) != Itself(SessionIds(nodes)[j]);
    DistinctSize(SessionIds(nodes));
    assert SessionIds(nodes)[..|SessionIds(nodes)|] == SessionIds(nodes);
  }

  // ----- Edges

  lemma {:induction false} EdgesAreTheMeetings(pairs: seq<(Node, Node)>, e: Edge)
    ensures e in EdgesOf(pairs) <==> exists p :: p in pairs && e == EdgeOf(p) && e.facts.Overlapping()
  {
    if pairs != [] {
      var last := |pairs| - 1;
      EdgesAreTheMeetings(pairs[..last], e);
      assert pairs == pairs[..last] + [pairs[last]];
    }
  }

  lemma EdgesAreReal(nodes: seq<Node>, bounds: Bounds, e: Edge)
    requires AllWellFormed(nodes) && e in GraphOf(nodes, bounds).edges
    ensures e.left in nodes && e.right in nodes && Comparable(e.left, e.right) && NodesMeet(e.left, e.right)
    ensures Sorting.Le(NodeKey(e.left), NodeKey(e.right)) && e.facts == FactsOf(e.left, e.right)
    ensures e.pairKey
      == e.left.sessionId + "\0" + e.left.nodeId + "\0" + e.right.sessionId + "\0" + e.right.nodeId
  {
    var kept := Survivors(nodes, bounds);
    var pairs := PairsOf(kept);
    var looked := pairs[..Min(|pairs|, bounds.maxPairs)];
    Sorting.SortKeepsElements(EdgesOf(looked), EdgeKey);
    EdgesAreTheMeetings(looked, e);
    var p :| p in looked && e == EdgeOf(p) && e.facts.Overlapping();
    assert p in pairs;
    PairsAreNodes(kept);
    SurvivorsAreNodes(nodes, bounds);
    Sorting.LeTotal(NodeKey(p.0), NodeKey(p.1));
    OverlappingIffMeet(e.left, e.right);
  }

  /** In a complete graph two comparable nodes that name a common path have an edge. */
  lemma CompleteGraphMissesNothing(nodes: seq<Node>, bounds: Bounds, l: Node, r: Node)
    requires AllWellFormed(nodes) && GraphOf(nodes, bounds).complete
    requires l in nodes && r in nodes && Comparable(l, r) && NodesMeet(l, r)
    ensures exists e :: e in GraphOf(nodes, bounds).edges && {e.left, e.right} == {l, r}
  {
    NothingLost(nodes, bounds);
    var pairs := PairsOf(nodes);
    assert pairs[..|pairs|] == pairs;
    assert GraphOf(nodes, bounds).edges == Sorting.SortBy(EdgesOf(pairs), EdgeKey);
    Sorting.SortKeepsElements(EdgesOf(pairs), EdgeKey);
    var p := PairOfNodes(nodes, l, r);
    PairHasEdge(pairs, p, l, r);
    assert EdgeOf(p) in GraphOf(nodes, bounds).edges;
  }

  lemma PairOfNodes(nodes: seq<Node>, l: Node, r: Node) returns (p: (Node, Node))
    requires l in nodes && r in nodes && Comparable(l, r)
    ensures p in PairsOf(nodes) && (p == (l, r) || p == (r, l))
  {
    var x: nat :| x < |nodes| && nodes[x] == l;
    var y: nat :| y < |nodes| && nodes[y] == r;
    p := if x < y then (l, r) else (r, l);
    CandidatesHave(nodes, |nodes|, if x < y then x else y, if x < y then y else x);
  }

  lemma EdgeOfMeeting(p: (Node, Node))
    requires WellFormed(p.0) && WellFormed(p.1) && NodesMeet(p.0, p.1)
    ensures EdgeOf(p).facts.Overlapping() && {EdgeOf(p).left, EdgeOf(p).right} == {p.0, p.1}
  {
    var (l, r) := OrderNodes(p.0, p.1);
    assert NodesMeet(l, r) by { MeetingIsSymmetric(p.0, p.1); }
    assert EdgeOf(p).facts.Overlapping() by { OverlappingIffMeet(l, r); }
  }

  lemma PairHasEdge(pairs: seq<(Node, Node)>, p: (Node, Node), l: Node, r: Node)
    requires p in pairs && (p == (l, r) || p == (r, l)) && WellFormed(l) && WellFormed(r) && NodesMeet(l, r)
    ensures EdgeOf(p) in EdgesOf(pairs) && {EdgeOf(p).left, EdgeOf(p).right} == {l, r}
  {
    MeetingIsSymmetric(l, r);
    EdgeOfMeeting(p);
    EdgesAreTheMeetings(pairs, EdgeOf(p));
  }

  lemma MeetingIsSymmetric(l: Node, r: Node)
    ensures NodesMeet(l, r) <==> NodesMeet(r, l)
  {
    forall a, b ensures SelectorsMeet(a, b) <==> SelectorsMeet(b, a) {
      MeetIsSymmetric(a, b);
    }
  }

  ghost predicate SharedPath(l: Node, r: Node, path: seq<string>) {
    Comparable(l, r) && IsConcrete(path) && NamesPath(l, path) && NamesPath(r, path)
  }

  /** Clean means: complete, and no path is named by nodes of two sessions that may share a repository. */
  lemma CleanIffNoSharedPath(nodes: seq<Node>, bounds: Bounds)
    requires AllWellFormed(nodes)
    ensures GraphOf(nodes, bounds).clean <==>
      GraphOf(nodes, bounds).complete && forall l, r, path :: l in nodes && r in nodes ==> !SharedPath(l, r, path)
  {
    var g := GraphOf(nodes, bounds);
    if g.clean {
      forall l, r, path | l in nodes && r in nodes ensures !SharedPath(l, r, path) {
        if SharedPath(l, r, path) {
          MeetIsACommonPath(l, r);
          CompleteGraphMissesNothing(nodes, bounds, l, r);
        }
      }
    }
    if g.edges != [] {
      var e := g.edges[0];
      EdgesAreReal(nodes, bounds, e);
      MeetIsACommonPath(e.left, e.right);
      var path :| IsConcrete(path) && NamesPath(e.left, path) && NamesPath(e.right, path);
      assert SharedPath(e.left, e.right, path);
    }
  }

  // ----- Back to the claims and intents

  /** The session declares the path: by a claim, by an intent attached to one of its claims
      (then in the claim's repository), or by an intent of its own. */
  ghost predicate Declares(claims: seq<Claim>, intents: seq<Intent>, session: string, repository: Option<string>,
      path: seq<string>) {
    || (exists c :: c in claims && c.sessionId == session && Some(c.repositoryId) == repository
                    && PathMatch(Segments(c.resource), path))
    || (exists c, i :: c in claims && i in intents && AttachedTo(i, c) && c.sessionId == session
                       && Some(c.repositoryId) == repository && Names(i.selector, path))
    || (exists i :: i in intents && i.intentId !in ClaimedIds(claims, intents) && i.sessionId == session
                    && i.repositoryId == repository && Names(i.selector, path))
  }

  ghost predicate NodeDeclares(nodes: seq<Node>, session: string, repository: Option<string>, path: seq<string>) {
    exists n :: n in nodes && n.sessionId == session && n.repositoryId == repository && NamesPath(n, path)
  }

  lemma ClaimSelectorNames(c: Claim, path: seq<string>)
    requires IsCanonical(c.resource)
    ensures Names(ClaimSelector(c), path) <==> PathMatch(Segments(c.resource), path)
  {
    PatternNames(ClaimSelector(c), path);
  }

  lemma DeclaredIsNamed(claims: seq<Claim>, intents: seq<Intent>, session: string, repository: Option<string>,
      path: seq<string>)
    requires ValidInput(claims, intents) && Declares(claims, intents, session, repository, path)
    ensures NodeDeclares(NodesOf(claims, intents), session, repository, path)
  {
    var plans := Sorting.SortBy(intents, IntentIdOf);
    Sorting.SortKeepsElements(intents, IntentIdOf);
    if c :| c in claims && c.sessionId == session && Some(c.repositoryId) == repository
            && PathMatch(Segments(c.resource), path) {
      var n := ClaimNode(c, plans);
      ClaimNodeSelectors(c, plans, ClaimSelector(c));
      ClaimSelectorNames(c, path);
      NodesAre(claims, intents, n);
      assert ClaimSelector(c) in n.selectors;
      assert NamesPath(n, path);
    } else if c, i :| c in claims && i in intents && AttachedTo(i, c) && c.sessionId == session
                      && Some(c.repositoryId) == repository && Names(i.selector, path) {
      var n := ClaimNode(c, plans);
      ClaimNodeSelectors(c, plans, i.selector);
      NodesAre(claims, intents, n);
      assert i.selector in n.selectors;
      assert NamesPath(n, path);
    } else {
      var i :| i in intents && i.intentId !in ClaimedIds(claims, intents) && i.sessionId == session
               && i.repositoryId == repository && Names(i.selector, path);
      var n := IntentNode(i);
      NodesAre(claims, intents, n);
      assert i.selector in n.selectors;
      assert NamesPath(n, path);
    }
  }

  lemma NamedIsDeclared(claims: seq<Claim>, intents: seq<Intent>, n: Node, path: seq<string>)
    requires ValidInput(claims, intents) && n in NodesOf(claims, intents) && NamesPath(n, path)
    ensures Declares(claims, intents, n.sessionId, n.repositoryId, path)
  {
    var plans := Sorting.SortBy(intents, IntentIdOf);
    Sorting.SortKeepsElements(intents, IntentIdOf);
    NodesAre(claims, intents, n);
    var s :| s in n.selectors && Names(s, path);
    if c :| c in claims && n == ClaimNode(c, plans) {
      ClaimNodeSelectors(c, plans, s);
      if s == ClaimSelector(c) {
        ClaimSelectorNames(c, path);
      } else {
        var i :| i in plans && AttachedTo(i, c) && i.selector == s;
        assert i in intents;
      }
    }
  }

  ghost predicate Disputed(claims: seq<Claim>, intents: seq<Intent>, path: seq<string>) {
    exists s, t, p, q :: s != t && (p == None || q == None || p == q)
      && Declares(claims, intents, s, p, path) && Declares(claims, intents, t, q, path)
  }

  /** End to end: the graph is clean exactly when it is complete and no concrete path is declared
      by two sessions in one repository, an unstated repository counting as any. */
  lemma CleanIffUndisputed(claims: seq<Claim>, intents: seq<Intent>, bounds: Bounds)
    requires ValidInput(claims, intents)
    ensures var g := GraphOf(NodesOf(claims, intents), bounds);
      g.clean <==> g.complete && forall path :: IsConcrete(path) ==> !Disputed(claims, intents, path)
  {
    var nodes := NodesOf(claims, intents);
    NodesAreWellFormed(claims, intents);
    CleanIffNoSharedPath(nodes, bounds);
    forall path | IsConcrete(path)
      ensures Disputed(claims, intents, path) <==> exists l, r :: l in nodes && r in nodes && SharedPath(l, r, path)
    {
      if s, t, p, q :| s != t && (p == None || q == None || p == q)
                       && Declares(claims, intents, s, p, path) && Declares(claims, intents, t, q, path) {
        DeclaredIsNamed(claims, intents, s, p, path);
        DeclaredIsNamed(claims, intents, t, q, path);
        var l :| l in nodes && l.sessionId == s && l.repositoryId == p && NamesPath(l, path);
        var r :| r in nodes && r.sessionId == t && r.repositoryId == q && NamesPath(r, path);
        assert SharedPath(l, r, path);
      }
      if l, r :| l in nodes && r in nodes && SharedPath(l, r, path) {
        NamedIsDeclared(claims, intents, l, path);
        NamedIsDeclared(claims, intents, r, path);
      }
    }
  }

  /** With distinct intent identifiers every intent is declared: attached intents under their
      claim's repository, the others under their own. */
  lemma EveryIntentIsDeclared(claims: seq<Claim>, intents: seq<Intent>, i: Intent, path: seq<string>)
    requires Sorting.KeyIsInjective(intents, IntentIdOf) && i in intents && Names(i.selector, path)
    ensures exists repository :: Declares(claims, intents, i.sessionId, repository, path)
  {
    if i.intentId in ClaimedIds(claims, intents) {
      var c, j :| c in claims && j in intents && AttachedTo(j, c) && j.intentId == i.intentId;
      assert IntentIdOf(j) == IntentIdOf(i);
      assert Declares(claims, intents, i.sessionId, Some(c.repositoryId), path);
    } else {
      assert Declares(claims, intents, i.sessionId, i.repositoryId, path);
    }
  }

  /** With distinct identifiers the graph does not depend on the order of its input. */
  lemma GraphIgnoresOrder(claims: seq<Claim>, intents: seq<Intent>, claims': seq<Claim>, intents': seq<Intent>,
      bounds: Bounds)
    requires multiset(claims) == multiset(claims') && Sorting.KeyIsInjective(claims, ClaimIdOf)
    requires multiset(intents) == multiset(intents') && Sorting.KeyIsInjective(intents, IntentIdOf)
    ensures GraphOf(NodesOf(claims, intents), bounds) == GraphOf(NodesOf(claims', intents'), bounds)
  {
    Sorting.SortIgnoresOrder(claims, claims', ClaimIdOf);
    Sorting.SortIgnoresOrder(intents, intents', IntentIdOf);
  }
}
