/** The bounded overlap graph: which pairs of nodes it looks at, and what a clean graph means. */
module OverlapGraph {
  import opened ResourceClaims
  import opened ResourceCoordination
  import opened Resources
  import opened Selectors
  import opened Wrappers
  import Sorting

  datatype Bounds = Bounds(maxSessions: nat, maxPairs: nat, maxSelectors: nat)

  datatype Edge = Edge(pairKey: string, left: Node, right: Node, facts: OverlapFacts)

  datatype Graph = Graph(
    edges: seq<Edge>, complete: bool, clean: bool, unevaluatedPairs: nat, unevaluatedSelectors: nat,
    omittedSessions: nat)

  function Min(a: nat, b: nat): nat {
    if a <= b then a else b
  }

  function Itself(s: string): string {
    s
  }

  // ----- The bounded parts, one after the other

  function SessionsOf(nodes: seq<Node>): seq<string> {
    seq(|nodes|, k requires 0 <= k < |nodes| => nodes[k].sessionId)
  }

  function SessionIds(nodes: seq<Node>): seq<string> {
    Sorting.SortBy(Sorting.Unique(SessionsOf(nodes)), Itself)
  }

  function SelectedSessions(nodes: seq<Node>, maximum: nat): set<string> {
    var ids := SessionIds(nodes);
    set id | id in ids[..Min(|ids|, maximum)]
  }

  /** The nodes of the selected sessions. */
  function OfSessions(nodes: seq<Node>, sessions: set<string>): (kept: seq<Node>)
    ensures forall n :: n in kept <==> n in nodes && n.sessionId in sessions
  {
    if nodes == [] then []
    else (if nodes[0].sessionId in sessions then [nodes[0]] else []) + OfSessions(nodes[1..], sessions)
  }

  function SelectorCount(nodes: seq<Node>): nat {
    if nodes == [] then 0 else |nodes[0].selectors| + SelectorCount(nodes[1..])
  }

  function OmittedSelectors(nodes: seq<Node>, sessions: set<string>): nat {
    if nodes == [] then 0
    else (if nodes[0].sessionId in sessions then 0 else |nodes[0].selectors|) + OmittedSelectors(nodes[1..], sessions)
  }

  datatype Limited = Limited(nodes: seq<Node>, used: nat, omitted: nat)

  function LimitStep(l: Limited, n: Node, maximum: nat): Limited {
    if l.used + |n.selectors| <= maximum then Limited(l.nodes + [n], l.used + |n.selectors|, l.omitted)
    else Limited(l.nodes, l.used, l.omitted + |n.selectors|)
  }

  function Limit(nodes: seq<Node>, maximum: nat): Limited {
    if nodes == [] then Limited([], 0, 0)
    else LimitStep(Limit(nodes[..|nodes| - 1], maximum), nodes[|nodes| - 1], maximum)
  }

  method LimitSelectors(nodes: seq<Node>, maximum: nat) returns (selected: seq<Node>, omitted: nat)
    ensures selected == Limit(nodes, maximum).nodes && omitted == Limit(nodes, maximum).omitted
  {
    var used: nat := 0;
    selected, omitted := [], 0;
    for k := 0 to |nodes|
      invariant Limited(selected, used, omitted) == Limit(nodes[..k], maximum)
    {
      assert nodes[..k + 1][..k] == nodes[..k];
      var count := |nodes[k].selectors|;
      if used + count <= maximum {
        selected := selected + [nodes[k]];
        used := used + count;
      } else {
        omitted := omitted + count;
      }
    }
    assert nodes[..|nodes|] == nodes;
  }

  predicate SameRepository(l: Node, r: Node) {
    l.repositoryId == None || r.repositoryId == None || l.repositoryId == r.repositoryId
  }

  /** Only nodes of two sessions that may share a repository are compared. */
  predicate Comparable(l: Node, r: Node) {
    l.sessionId != r.sessionId && SameRepository(l, r)
  }

  /** The pairs of node `i` with the nodes after it, up to position `j`. */
  function Row(nodes: seq<Node>, i: nat, j: nat): seq<(Node, Node)>
    requires i < j <= |nodes|
    decreases j
  {
    if j == i + 1 then []
    else Row(nodes, i, j - 1) + if Comparable(nodes[i], nodes[j - 1]) then [(nodes[i], nodes[j - 1])] else []
  }

  function Candidates(nodes: seq<Node>, i: nat): seq<(Node, Node)>
    requires i <= |nodes|
  {
    if i == 0 then [] else Candidates(nodes, i - 1) + Row(nodes, i - 1, |nodes|)
  }

  method FindCandidates(nodes: seq<Node>) returns (pairs: seq<(Node, Node)>)
    ensures pairs == Candidates(nodes, |nodes|)
  {
    pairs := [];
    for i := 0 to |nodes|
      invariant pairs == Candidates(nodes, i)
    {
      for j := i + 1 to |nodes|
        invariant pairs == Candidates(nodes, i) + Row(nodes, i, j)
      {
        var left, right := nodes[i], nodes[j];
        if left.sessionId == right.sessionId { continue; }
        if left.repositoryId != None && right.repositoryId != None && left.repositoryId != right.repositoryId {
          continue;
        }
        pairs := pairs + [(left, right)];
      }
    }
  }

  function OrderNodes(l: Node, r: Node): (Node, Node) {
    if Sorting.Le(NodeKey(l), NodeKey(r)) then (l, r) else (r, l)
  }

  function PairKey(l: Node, r: Node): string {
    var (first, second) := OrderNodes(l, r);
    first.sessionId + "\0" + first.nodeId + "\0" + second.sessionId + "\0" + second.nodeId
  }

  function EdgeKey(e: Edge): string {
    e.pairKey
  }

  ghost function EdgeOf(pair: (Node, Node)): Edge {
    var (l, r) := OrderNodes(pair.0, pair.1);
    Edge(PairKey(l, r), l, r, FactsOf(l, r))
  }

  ghost function EdgesOf(pairs: seq<(Node, Node)>): seq<Edge> {
    if pairs == [] then []
    else
      var before, e := EdgesOf(pairs[..|pairs| - 1]), EdgeOf(pairs[|pairs| - 1]);
      if e.facts.Overlapping() then before + [e] else before
  }

  ghost predicate AllWellFormed(nodes: seq<Node>) {
    forall n :: n in nodes ==> WellFormed(n) && n.selectors != []
  }

  method EvaluatePairs(pairs: seq<(Node, Node)>, nodes: seq<Node>) returns (edges: seq<Edge>)
    requires AllWellFormed(nodes) && forall p :: p in pairs ==> p.0 in nodes && p.1 in nodes
    ensures edges == EdgesOf(pairs)
  {
    edges := [];
    for k := 0 to |pairs|
      invariant edges == EdgesOf(pairs[..k])
    {
      assert pairs[..k + 1][..k] == pairs[..k];
      assert pairs[k] in pairs;
      var (left, right) := OrderNodes(pairs[k].0, pairs[k].1);
      var facts := FindOverlapFacts(left, right);
      if facts.Overlapping() {
        edges := edges + [Edge(PairKey(left, right), left, right, facts)];
      }
    }
    assert pairs[..|pairs|] == pairs;
  }

  // ----- The graph

  /** What the bounds leave to look at. */
  function Survivors(nodes: seq<Node>, bounds: Bounds): seq<Node> {
    Limit(OfSessions(nodes, SelectedSessions(nodes, bounds.maxSessions)), bounds.maxSelectors).nodes
  }

  function SelectorsLost(nodes: seq<Node>, bounds: Bounds): nat {
    var sessions := SelectedSessions(nodes, bounds.maxSessions);
    Limit(OfSessions(nodes, sessions), bounds.maxSelectors).omitted + OmittedSelectors(nodes, sessions)
  }

  function PairsOf(nodes: seq<Node>): seq<(Node, Node)> {
    Candidates(nodes, |nodes|)
  }

  ghost function GraphOf(nodes: seq<Node>, bounds: Bounds): Graph {
    var pairs := PairsOf(Survivors(nodes, bounds));
    var evaluated := Min(|pairs|, bounds.maxPairs);
    var edges := Sorting.SortBy(EdgesOf(pairs[..evaluated]), EdgeKey);
    var lost := SelectorsLost(nodes, bounds);
    var complete := |pairs| == evaluated && lost == 0;
    var ids, selected := SessionIds(nodes), SelectedSessions(nodes, bounds.maxSessions);
    Graph(edges, complete, complete && edges == [], |pairs| - evaluated, lost,
          if |ids| > |selected| then |ids| - |selected| else 0)
  }

  lemma SurvivorsAreNodes(nodes: seq<Node>, bounds: Bounds)
    ensures forall n :: n in Survivors(nodes, bounds) ==> n in nodes
  {
    LimitKeeps(OfSessions(nodes, SelectedSessions(nodes, bounds.maxSessions)), bounds.maxSelectors);
  }

  lemma {:induction false} LimitKeeps(nodes: seq<Node>, maximum: nat)
    ensures forall n :: n in Limit(nodes, maximum).nodes ==> n in nodes
    ensures Limit(nodes, maximum).used + Limit(nodes, maximum).omitted == SelectorCount(nodes)
  {
    if nodes != [] {
      var last := |nodes| - 1;
      assert nodes == nodes[..last] + [nodes[last]];
      LimitKeeps(nodes[..last], maximum);
      CountConcat(nodes[..last], [nodes[last]]);
    }
  }

  lemma {:induction false} CountConcat(a: seq<Node>, b: seq<Node>)
    ensures SelectorCount(a + b) == SelectorCount(a) + SelectorCount(b)
  {
    if a == [] {
      assert a + b == b;
    } else {
      assert (a + b)[1..] == a[1..] + b;
      CountConcat(a[1..], b);
    }
  }

  lemma {:induction false} RowMembers(nodes: seq<Node>, i: nat, j: nat, p: (Node, Node))
    requires i < j <= |nodes| && p in Row(nodes, i, j)
    ensures p.0 == nodes[i] && p.1 in nodes && Comparable(p.0, p.1)
    decreases j
  {
    if j > i + 1 && p in Row(nodes, i, j - 1) { RowMembers(nodes, i, j - 1, p); }
  }

  lemma {:induction false} RowHas(nodes: seq<Node>, i: nat, j: nat, y: nat)
    requires i < y < j <= |nodes| && Comparable(nodes[i], nodes[y])
    ensures (nodes[i], nodes[y]) in Row(nodes, i, j)
    decreases j
  {
    if y < j - 1 { RowHas(nodes, i, j - 1, y); }
  }

  lemma {:induction false} CandidatesMembers(nodes: seq<Node>, i: nat, p: (Node, Node))
    requires i <= |nodes| && p in Candidates(nodes, i)
    ensures p.0 in nodes && p.1 in nodes && Comparable(p.0, p.1)
  {
    if p in Row(nodes, i - 1, |nodes|) {
      RowMembers(nodes, i - 1, |nodes|, p);
    } else {
      CandidatesMembers(nodes, i - 1, p);
    }
  }

  /** No pair of comparable nodes is passed over. */
  lemma {:induction false} CandidatesHave(nodes: seq<Node>, i: nat, x: nat, y: nat)
    requires x < i <= |nodes| && x < y < |nodes| && Comparable(nodes[x], nodes[y])
    ensures (nodes[x], nodes[y]) in Candidates(nodes, i)
  {
    if x == i - 1 {
      RowHas(nodes, x, |nodes|, y);
    } else {
      CandidatesHave(nodes, i - 1, x, y);
    }
  }

  lemma PairsAreNodes(nodes: seq<Node>)
    ensures forall p :: p in PairsOf(nodes) ==> p.0 in nodes && p.1 in nodes && Comparable(p.0, p.1)
  {
    forall p | p in PairsOf(nodes) ensures p.0 in nodes && p.1 in nodes && Comparable(p.0, p.1) {
      CandidatesMembers(nodes, |nodes|, p);
    }
  }

  // ----- Input the graph is built from

  ghost predicate ValidInput(claims: seq<Claim>, intents: seq<Intent>) {
    && (forall c :: c in claims ==> IsCanonical(c.resource))
    && (forall i :: i in intents ==> ValidSelector(i.selector))
  }

  lemma UniqueKeepsSelectors(all: seq<Selector>, s: Selector)
    ensures s in UniqueSelectors(all) <==> s in all
  {
    Sorting.SortKeepsElements(Sorting.Unique(all), SelectorKey);
  }

  lemma ClaimNodeSelectors(c: Claim, intents: seq<Intent>, s: Selector)
    ensures s in ClaimNode(c, intents).selectors <==>
      s == ClaimSelector(c) || exists i :: i in intents && AttachedTo(i, c) && i.selector == s
  {
    var attached := Attached(intents, c);
    var plans := SelectorsOf(attached);
    var all := [ClaimSelector(c)] + plans;
    UniqueKeepsSelectors(all, s);
    assert s in all <==> s == ClaimSelector(c) || s in plans;
    if i :| i in intents && AttachedTo(i, c) && i.selector == s {
      assert i in attached;
      var k :| 0 <= k < |attached| && attached[k] == i;
      assert plans[k] == s;
    }
  }

  lemma ClaimNodeIsWellFormed(c: Claim, intents: seq<Intent>)
    requires IsCanonical(c.resource) && forall i :: i in intents ==> ValidSelector(i.selector)
    ensures WellFormed(ClaimNode(c, intents)) && ClaimNode(c, intents).selectors != []
  {
    var n := ClaimNode(c, intents);
    ClaimNodeSelectors(c, intents, ClaimSelector(c));
    forall s | s in n.selectors ensures ValidSelector(s) { ClaimNodeSelectors(c, intents, s); }
    forall i | i in n.intents ensures i.selector in n.selectors { ClaimNodeSelectors(c, intents, i.selector); }
  }

  lemma ClaimNodesAre(cs: seq<Claim>, plans: seq<Intent>, n: Node)
    ensures n in ClaimNodes(cs, plans) <==> exists c :: c in cs && n == ClaimNode(c, plans)
  {
    forall c | c in cs ensures ClaimNode(c, plans) in ClaimNodes(cs, plans) {
      var k :| 0 <= k < |cs| && cs[k] == c;
      assert ClaimNodes(cs, plans)[k] == ClaimNode(c, plans);
    }
  }

  ghost predicate FromClaim(claims: seq<Claim>, plans: seq<Intent>, n: Node) {
    exists c :: c in claims && n == ClaimNode(c, plans)
  }

  ghost predicate FromIntent(intents: seq<Intent>, claimed: set<string>, n: Node) {
    exists i :: i in intents && i.intentId !in claimed && n == IntentNode(i)
  }

  lemma ClaimedIdsIgnoreOrder(claims: seq<Claim>, intents: seq<Intent>, cs: seq<Claim>, plans: seq<Intent>)
    requires forall c :: c in cs <==> c in claims
    requires forall i :: i in plans <==> i in intents
    ensures ClaimedIds(cs, plans) == ClaimedIds(claims, intents)
  {
  }

  /** The nodes, without their order. */
  lemma NodesAre(claims: seq<Claim>, intents: seq<Intent>, n: Node)
    ensures n in NodesOf(claims, intents) <==>
      FromClaim(claims, Sorting.SortBy(intents, IntentIdOf), n) || FromIntent(intents, ClaimedIds(claims, intents), n)
  {
    var cs, plans := Sorting.SortBy(claims, ClaimIdOf), Sorting.SortBy(intents, IntentIdOf);
    Sorting.SortKeepsElements(claims, ClaimIdOf);
    Sorting.SortKeepsElements(intents, IntentIdOf);
    ClaimedIdsIgnoreOrder(claims, intents, cs, plans);
    var claimed := ClaimedIds(cs, plans);
    Sorting.SortKeepsElements(ClaimNodes(cs, plans) + FreeNodes(plans, claimed), NodeKey);
    ClaimNodesAre(cs, plans, n);
    FreeNodesAreTheUnclaimed(plans, claimed, n);
  }

  lemma NodesAreWellFormed(claims: seq<Claim>, intents: seq<Intent>)
    requires ValidInput(claims, intents)
    ensures AllWellFormed(NodesOf(claims, intents))
  {
    var plans := Sorting.SortBy(intents, IntentIdOf);
    Sorting.SortKeepsElements(intents, IntentIdOf);
    forall n | n in NodesOf(claims, intents) ensures WellFormed(n) && n.selectors != [] {
      NodesAre(claims, intents, n);
      if c :| c in claims && n == ClaimNode(c, plans) { ClaimNodeIsWellFormed(c, plans); }
    }
  }

  method GraphOverNodes(nodes: seq<Node>, bounds: Bounds) returns (g: Graph)
    requires AllWellFormed(nodes)
    ensures g == GraphOf(nodes, bounds)
  {
    var sessionIds := SessionIds(nodes);
    var selectedSessions := SelectedSessions(nodes, bounds.maxSessions);
    var omittedSessions := if |sessionIds| > |selectedSessions| then |sessionIds| - |selectedSessions| else 0;
    var sessionNodes := OfSessions(nodes, selectedSessions);
    var sessionOmitted := OmittedSelectors(nodes, selectedSessions);
    var selectedNodes, omitted := LimitSelectors(sessionNodes, bounds.maxSelectors);
    var candidates := FindCandidates(selectedNodes);
    SurvivorsAreNodes(nodes, bounds);
    PairsAreNodes(selectedNodes);
    var evaluated := Min(|candidates|, bounds.maxPairs);
    var edges := EvaluatePairs(candidates[..evaluated], nodes);
    edges := Sorting.SortBy(edges, EdgeKey);
    var unevaluatedSelectors := omitted + sessionOmitted;
    var complete := |candidates| - evaluated == 0 && unevaluatedSelectors == 0;
    g := Graph(edges, complete, complete && edges == [], |candidates| - evaluated, unevaluatedSelectors,
               omittedSessions);
  }

  method BuildResourceOverlapGraph(claims: seq<Claim>, intents: seq<Intent>, bounds: Bounds) returns (g: Graph)
    requires ValidInput(claims, intents)
    ensures g == GraphOf(NodesOf(claims, intents), bounds)
  {
    NodesAreWellFormed(claims, intents);
    var nodes := BuildNodes(claims, intents);
    g := GraphOverNodes(nodes, bounds);
  }
}
