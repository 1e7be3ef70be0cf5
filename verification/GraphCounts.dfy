/** What an overlap graph says about single edges and about what it left out, counted over its input. */
module GraphCounts {
  import opened GlobLanguage
  import opened GraphMeaning
  import opened OverlapGraph
  import opened PairCounts
  import opened ResourceCoordination
  import opened Resources
  import opened Selections
  import opened Selectors
  import Sorting
  import Strings

  // ----- The facts about two nodes, by the paths they name

  ghost predicate BothName(a: Selector, b: Selector, path: seq<string>) {
    IsConcrete(path) && Names(a, path) && Names(b, path)
  }

  /** Both nodes name one path exactly. */
  ghost predicate SameExactPath(l: Node, r: Node) {
    exists resource :: Selector(Exact, resource) in l.selectors && Selector(Exact, resource) in r.selectors
  }

  /** Some path is named by both, by two selectors of which one names more than a single path. */
  ghost predicate ShareByPattern(l: Node, r: Node) {
    exists a, b, path ::
      a in l.selectors && b in r.selectors && BothName(a, b, path) && !(a.kind == Exact && b.kind == Exact)
  }

  predicate StrictlyBelow(namespace: string, path: seq<string>) {
    Segments(namespace) <= path && Segments(namespace) != path
  }

  /** The other selector reaches strictly below the namespace: it stands there, or as a glob names a path there. */
  ghost predicate ReachesBelow(namespace: string, other: Selector) {
    if other.kind == Glob then exists path :: IsConcrete(path) && StrictlyBelow(namespace, path) && Names(other, path)
    else StrictlyBelow(namespace, Segments(other.resource))
  }

  /** The namespace is the left selector's if it is one, and else the right one's. */
  ghost predicate ParentAndChild(a: Selector, b: Selector) {
    if a.kind == Namespace then ReachesBelow(a.resource, b) else b.kind == Namespace && ReachesBelow(b.resource, a)
  }

  ghost predicate Nested(l: Node, r: Node) {
    exists a, b, path :: a in l.selectors && b in r.selectors && BothName(a, b, path) && ParentAndChild(a, b)
  }

  /** Both nodes plan to create one path. */
  ghost predicate BothWouldCreate(l: Node, r: Node) {
    exists i, j, path :: i in l.intents && j in r.intents && i.mode == Create && j.mode == Create
      && BothName(i.selector, j.selector, path)
  }

  lemma {:induction false} StarMatchesNames(s: string)
    requires '/' !in s
    ensures SegMatch("*", s)
  {
    assert "*"[1..] == "";
    if s != "" {
      assert s[0] in s && forall c :: c in s[1..] ==> c in s;
      StarMatchesNames(s[1..]);
    }
  }

  lemma {:induction false} OneMoreMatches(w: seq<string>)
    requires AllNames(w)
    ensures PathMatch(["**", "*"], w) <==> w != []
  {
    assert ["**", "*"][1..] == ["*"] && ["*"][1..] == [];
    if w != [] {
      OneMoreMatches(w[1..]);
      if |w| == 1 {
        StarMatchesNames(w[0]);
        assert PathMatch(["*"], w);
      }
    } else {
      assert !PathMatch(["*"], w);
    }
  }

  /** Literal segments followed by at least one more. */
  lemma {:induction false} LiteralThenMore(p: seq<string>, w: seq<string>)
    requires (forall k :: 0 <= k < |p| ==> WildcardFree(p[k])) && AllNames(w)
    ensures PathMatch(p + ["**", "*"], w) <==> p <= w && p != w
    decreases |p|
  {
    if p == [] {
      assert p + ["**", "*"] == ["**", "*"];
      OneMoreMatches(w);
    } else {
      assert p[0] != "**" by { assert '*' in "**"; }
      assert (p + ["**", "*"])[1..] == p[1..] + ["**", "*"];
      if w != [] {
        LiteralSegment(p[0], w[0]);
        LiteralThenMore(p[1..], w[1..]);
        assert p <= w <==> p[0] == w[0] && p[1..] <= w[1..];
        assert p == w <==> p[0] == w[0] && p[1..] == w[1..];
      }
    }
  }

  lemma BelowNamespaceSegments(namespace: string)
    ensures Segments(namespace + "/**/*") == Segments(namespace) + ["**", "*"]
  {
    Strings.SplitWhole("*", '/');
    Strings.SplitWhole("**", '/');
    Strings.SplitConcat("**", "*", '/');
    assert "**" + ['/'] + "*" == "**/*";
    Strings.SplitConcat(namespace, "**/*", '/');
    assert namespace + "/**/*" == namespace + ['/'] + "**/*";
  }

  lemma GlobReachesBelow(namespace: string, other: Selector)
    requires IsCanonical(namespace) && WildcardFree(namespace) && ValidSelector(other) && other.kind == Glob
    ensures ResourcesOverlap(namespace + "/**/*", other.resource) <==> ReachesBelow(namespace, other)
  {
    BelowNamespaceSegments(namespace);
    LiteralParts(namespace);
    forall w | IsConcrete(w)
      ensures PathMatch(Segments(namespace + "/**/*"), w) <==> StrictlyBelow(namespace, w)
    {
      LiteralThenMore(Segments(namespace), w);
    }
  }

  lemma PlainReachesBelow(namespace: string, other: Selector)
    requires other.kind != Glob
    ensures namespace != other.resource && PathPrefix(namespace, other.resource) <==> ReachesBelow(namespace, other)
  {
    PrefixIsSegmentPrefix(namespace, other.resource);
    if Segments(namespace) == Segments(other.resource) { Strings.SplitIsInjective(namespace, other.resource, '/'); }
  }

  lemma ParentChildMeans(a: Selector, b: Selector)
    requires ValidSelector(a) && ValidSelector(b)
    ensures IsParentChild(a, b) <==> ParentAndChild(a, b)
  {
    if a.kind == Namespace {
      if b.kind == Glob { GlobReachesBelow(a.resource, b); } else { PlainReachesBelow(a.resource, b); }
    } else if b.kind == Namespace {
      if a.kind == Glob { GlobReachesBelow(b.resource, a); } else { PlainReachesBelow(b.resource, a); }
    }
  }

  lemma ExactFactMeans(l: Node, r: Node)
    requires WellFormed(l) && WellFormed(r)
    ensures InTable(ExactMatch, l.selectors, r.selectors) <==> SameExactPath(l, r)
  {
    if a, b :| a in l.selectors && b in r.selectors && Shows(ExactMatch, a, b) {
      assert a == Selector(Exact, a.resource) && b == Selector(Exact, a.resource);
    }
    if resource :| Selector(Exact, resource) in l.selectors && Selector(Exact, resource) in r.selectors {
      var a := Selector(Exact, resource);
      ExactsMeet(a, a);
      assert Shows(ExactMatch, a, a) && InRow(ExactMatch, a, r.selectors);
    }
  }

  lemma PatternFactMeans(l: Node, r: Node)
    ensures InTable(Intersection, l.selectors, r.selectors) <==> ShareByPattern(l, r)
  {
    if a, b :| a in l.selectors && b in r.selectors && Shows(Intersection, a, b) {
      var path :| IsConcrete(path) && Names(a, path) && Names(b, path);
      assert BothName(a, b, path);
    }
    if a, b, path :| a in l.selectors && b in r.selectors && BothName(a, b, path)
                     && !(a.kind == Exact && b.kind == Exact) {
      assert Shows(Intersection, a, b) && InRow(Intersection, a, r.selectors);
    }
  }

  lemma NestingFactMeans(l: Node, r: Node)
    requires WellFormed(l) && WellFormed(r)
    ensures InTable(ParentChild, l.selectors, r.selectors) <==> Nested(l, r)
  {
    if a, b :| a in l.selectors && b in r.selectors && Shows(ParentChild, a, b) {
      ParentChildMeans(a, b);
      var path :| IsConcrete(path) && Names(a, path) && Names(b, path);
      assert BothName(a, b, path);
    }
    if a, b, path :| a in l.selectors && b in r.selectors && BothName(a, b, path) && ParentAndChild(a, b) {
      ParentChildMeans(a, b);
      assert Shows(ParentChild, a, b) && InRow(ParentChild, a, r.selectors);
    }
  }

  lemma CreateFactMeans(l: Node, r: Node)
    ensures CreatesCollide(l.intents, r.intents) <==> BothWouldCreate(l, r)
  {
    if i, j :| i in l.intents && j in r.intents && BothCreate(i, j) && SelectorsMeet(i.selector, j.selector) {
      var path :| IsConcrete(path) && Names(i.selector, path) && Names(j.selector, path);
      assert BothName(i.selector, j.selector, path);
    }
    if BothWouldCreate(l, r) {
      var i, j, path :| i in l.intents && j in r.intents && i.mode == Create && j.mode == Create
        && BothName(i.selector, j.selector, path);
      assert BothCreate(i, j) && SelectorsMeet(i.selector, j.selector);
      assert CreateMeets(i, r.intents);
    }
  }

  /** Every fact of an edge, by what the two nodes name and plan. */
  lemma FactsMean(l: Node, r: Node)
    requires WellFormed(l) && WellFormed(r)
    ensures FactsOf(l, r).exactResourceMatch <==> SameExactPath(l, r)
    ensures FactsOf(l, r).selectorIntersection <==> ShareByPattern(l, r)
    ensures FactsOf(l, r).parentChildOverlap <==> Nested(l, r)
    ensures FactsOf(l, r).createCreateCollision <==> BothWouldCreate(l, r)
  {
    ExactFactMeans(l, r);
    PatternFactMeans(l, r);
    NestingFactMeans(l, r);
    CreateFactMeans(l, r);
  }

  // ----- Which sessions are looked at

  function SessionsIn(nodes: seq<Node>): set<string> {
    set n | n in nodes :: n.sessionId
  }

  function SessionsBefore(nodes: seq<Node>, id: string): set<string> {
    set n | n in nodes && Sorting.Le(n.sessionId, id) && n.sessionId != id :: n.sessionId
  }

  /** A session is looked at if fewer sessions than the bound come before it in order. */
  predicate LookedAt(nodes: seq<Node>, maximum: nat, id: string) {
    |SessionsBefore(nodes, id)| < maximum
  }

  predicate StrictlyAscending(ids: seq<string>) {
    forall i, j :: 0 <= i < j < |ids| ==> Sorting.Le(ids[i], ids[j]) && ids[i] != ids[j]
  }

  lemma SessionIdsAscend(nodes: seq<Node>)
    ensures StrictlyAscending(SessionIds(nodes))
    ensures forall id :: id in SessionIds(nodes) <==> id in SessionsIn(nodes)
  {
    SessionIdsAreDistinct(nodes);
    Sorting.SortSorts(Sorting.Unique(SessionsOf(nodes)), Itself);
    var ids := SessionIds(nodes);
    forall i, j | 0 <= i < j < |ids| ensures Sorting.Le(ids[i], ids[j]) && ids[i] != ids[j] {
      assert Itself(ids[i]) != Itself(ids[j]) && Sorting.Le(Itself(ids[i]), Itself(ids[j]));
    }
  }

  lemma NotAfter(a: string, b: string)
    requires Sorting.Le(a, b) && a != b
    ensures !Sorting.Le(b, a)
  {
    if Sorting.Le(b, a) { Sorting.LeAntisymmetric(a, b); }
  }

  /** The sessions before the `k`-th are the `k` ones listed before it. */
  lemma RankIsPosition(nodes: seq<Node>, k: nat)
    requires k < |SessionIds(nodes)|
    ensures |SessionsBefore(nodes, SessionIds(nodes)[k])| == k
  {
    var ids := SessionIds(nodes);
    SessionIdsAscend(nodes);
    var earlier := ids[..k];
    forall id ensures id in earlier <==> id in SessionsBefore(nodes, ids[k]) {
      if id in earlier {
        var i :| 0 <= i < k && ids[i] == id;
        assert id in ids && id in SessionsIn(nodes);
      }
      if id in SessionsBefore(nodes, ids[k]) {
        assert id in SessionsIn(nodes) && id in ids;
        var i :| 0 <= i < |ids| && ids[i] == id;
        if k < i { NotAfter(ids[k], ids[i]); }
        assert i < k && earlier[i] == id;
      }
    }
    DistinctSize(earlier);
    assert (set id | id in earlier) == SessionsBefore(nodes, ids[k]);
  }

  lemma SelectedAreLookedAt(nodes: seq<Node>, maximum: nat, id: string)
    requires id in SessionsIn(nodes)
    ensures id in SelectedSessions(nodes, maximum) <==> LookedAt(nodes, maximum, id)
  {
    var ids := SessionIds(nodes);
    SessionIdsAscend(nodes);
    var k :| 0 <= k < |ids| && ids[k] == id;
    RankIsPosition(nodes, k);
    var first := ids[..Min(|ids|, maximum)];
    if id in first {
      var i :| 0 <= i < |first| && first[i] == id;
      assert ids[i] == ids[k] && i == k;
    }
    if k < maximum { assert first[k] == id; }
  }

  lemma SessionsAreCounted(nodes: seq<Node>, maximum: nat)
    ensures |SessionIds(nodes)| == |SessionsIn(nodes)|
    ensures |SelectedSessions(nodes, maximum)| == Min(|SessionsIn(nodes)|, maximum)
  {
    var ids := SessionIds(nodes);
    SessionIdsAscend(nodes);
    DistinctSize(ids);
    assert (set id | id in ids) == SessionsIn(nodes);
    DistinctSize(ids[..Min(|ids|, maximum)]);
  }

  // ----- Which nodes are looked at

  /** The selectors of the nodes at the positions below `k` that are chosen, or that are not. */
  function Load(nodes: seq<Node>, chosen: seq<int>, k: nat, within: bool): nat
    requires k <= |nodes|
  {
    if k == 0 then 0
    else Load(nodes, chosen, k - 1, within) + (if (k - 1 in chosen) == within then |nodes[k - 1].selectors| else 0)
  }

  /** A node is looked at if its session is and its selectors still fit beside those of the nodes before it. */
  ghost predicate Fits(nodes: seq<Node>, chosen: seq<int>, bounds: Bounds, k: nat)
    requires k < |nodes|
  {
    LookedAt(nodes, bounds.maxSessions, nodes[k].sessionId)
    && Load(nodes, chosen, k, true) + |nodes[k].selectors| <= bounds.maxSelectors
  }

  /** The chosen positions, in order, are those of the nodes that fit. */
  ghost predicate Chosen(nodes: seq<Node>, chosen: seq<int>, bounds: Bounds) {
    && (forall i, j :: 0 <= i < j < |chosen| ==> chosen[i] < chosen[j])
    && (forall i :: 0 <= i < |chosen| ==> 0 <= chosen[i] < |nodes|)
    && forall k :: 0 <= k < |nodes| ==> (k in chosen <==> Fits(nodes, chosen, bounds, k))
  }

  lemma {:induction false} LoadIgnoresLater(nodes: seq<Node>, chosen: seq<int>, more: seq<int>, k: nat, within: bool)
    requires k <= |nodes| && forall x :: 0 <= x < k ==> (x in chosen <==> x in more)
    ensures Load(nodes, chosen, k, within) == Load(nodes, more, k, within)
  {
    if k > 0 { LoadIgnoresLater(nodes, chosen, more, k - 1, within); }
  }

  lemma {:induction false} OfSessionsSnoc(nodes: seq<Node>, n: Node, sessions: set<string>)
    ensures OfSessions(nodes + [n], sessions)
      == OfSessions(nodes, sessions) + if n.sessionId in sessions then [n] else []
  {
    if nodes == [] {
      assert nodes + [n] == [n] && [n][1..] == [];
    } else {
      var rest := OfSessions(nodes[1..], sessions);
      assert (nodes + [n])[1..] == nodes[1..] + [n];
      OfSessionsSnoc(nodes[1..], n, sessions);
      assert OfSessions(nodes, sessions) == (if nodes[0].sessionId in sessions then [nodes[0]] else []) + rest;
    }
  }

  lemma {:induction false} OmittedSnoc(nodes: seq<Node>, n: Node, sessions: set<string>)
    ensures OmittedSelectors(nodes + [n], sessions)
      == OmittedSelectors(nodes, sessions) + if n.sessionId in sessions then 0 else |n.selectors|
  {
    if nodes == [] {
      assert nodes + [n] == [n] && [n][1..] == [];
    } else {
      assert (nodes + [n])[1..] == nodes[1..] + [n];
      OmittedSnoc(nodes[1..], n, sessions);
    }
  }

  lemma LimitSnoc(nodes: seq<Node>, n: Node, maximum: nat)
    ensures Limit(nodes + [n], maximum) == LimitStep(Limit(nodes, maximum), n, maximum)
  {
    assert (nodes + [n])[..|nodes|] == nodes;
  }

  /** What the bounds leave of the first `k` nodes. */
  function LimitedTo(nodes: seq<Node>, bounds: Bounds, k: nat): Limited
    requires k <= |nodes|
  {
    Limit(OfSessions(nodes[..k], SelectedSessions(nodes, bounds.maxSessions)), bounds.maxSelectors)
  }

  function OmittedTo(nodes: seq<Node>, bounds: Bounds, k: nat): nat
    requires k <= |nodes|
  {
    LimitedTo(nodes, bounds, k).omitted + OmittedSelectors(nodes[..k], SelectedSessions(nodes, bounds.maxSessions))
  }

  /** From one node to the next. */
  predicate Advances(nodes: seq<Node>, bounds: Bounds, k: nat, l: Limited, omitted: nat, l': Limited, omitted': nat)
    requires k < |nodes|
  {
    var n := nodes[k];
    if LookedAt(nodes, bounds.maxSessions, n.sessionId) && l.used + |n.selectors| <= bounds.maxSelectors then
      l'.nodes == l.nodes + [n] && l'.used == l.used + |n.selectors| && omitted' == omitted
    else l'.nodes == l.nodes && l'.used == l.used && omitted' == omitted + |n.selectors|
  }

  lemma OneMoreNode(nodes: seq<Node>, bounds: Bounds, k: nat)
    requires k < |nodes|
    ensures Advances(nodes, bounds, k, LimitedTo(nodes, bounds, k), OmittedTo(nodes, bounds, k),
                     LimitedTo(nodes, bounds, k + 1), OmittedTo(nodes, bounds, k + 1))
  {
    var sessions := SelectedSessions(nodes, bounds.maxSessions);
    assert nodes[..k + 1] == nodes[..k] + [nodes[k]];
    SelectedAreLookedAt(nodes, bounds.maxSessions, nodes[k].sessionId);
    OfSessionsSnoc(nodes[..k], nodes[k], sessions);
    OmittedSnoc(nodes[..k], nodes[k], sessions);
    if nodes[k].sessionId in sessions {
      LimitSnoc(OfSessions(nodes[..k], sessions), nodes[k], bounds.maxSelectors);
    } else {
      assert OfSessions(nodes[..k], sessions) + [] == OfSessions(nodes[..k], sessions);
    }
  }

  /** The positions below `k` are chosen as they fit. */
  ghost predicate ChosenTo(nodes: seq<Node>, bounds: Bounds, k: nat, chosen: seq<int>)
    requires k <= |nodes|
  {
    (forall x :: x in chosen ==> x < k) && forall x :: 0 <= x < k ==> (x in chosen <==> Fits(nodes, chosen, bounds, x))
  }

  /** What the first `k` nodes leave is at the chosen positions, and the rest is omitted. */
  ghost predicate LeftBy(nodes: seq<Node>, k: nat, chosen: seq<int>, l: Limited, omitted: nat)
    requires k <= |nodes|
  {
    && PicksOut(chosen, l.nodes, nodes)
    && l.used == Load(nodes, chosen, k, true) && omitted == Load(nodes, chosen, k, false)
  }

  lemma ChoosingStays(nodes: seq<Node>, bounds: Bounds, k: nat, chosen: seq<int>)
    requires k < |nodes| && ChosenTo(nodes, bounds, k, chosen) && Fits(nodes, chosen, bounds, k)
    ensures ChosenTo(nodes, bounds, k + 1, chosen + [k])
  {
    var more := chosen + [k];
    forall x: nat | x <= k ensures Load(nodes, more, x, true) == Load(nodes, chosen, x, true) {
      LoadIgnoresLater(nodes, chosen, more, x, true);
    }
    forall x | 0 <= x < k + 1 ensures x in more <==> Fits(nodes, more, bounds, x) {
      assert x in more <==> x == k || x in chosen;
    }
  }

  lemma StepIsTaken(nodes: seq<Node>, bounds: Bounds, k: nat, chosen: seq<int>, l: Limited, omitted: nat, l': Limited,
      omitted': nat)
    requires k < |nodes| && LeftBy(nodes, k, chosen, l, omitted) && Fits(nodes, chosen, bounds, k)
    requires Advances(nodes, bounds, k, l, omitted, l', omitted')
    requires forall x :: x in chosen ==> x < k
    ensures LeftBy(nodes, k + 1, chosen + [k], l', omitted')
  {
    LoadIgnoresLater(nodes, chosen, chosen + [k], k, true);
    LoadIgnoresLater(nodes, chosen, chosen + [k], k, false);
    forall i | 0 <= i < |chosen| ensures chosen[i] < k {
      assert chosen[i] in chosen;
    }
  }

  lemma StepIsSkipped(nodes: seq<Node>, bounds: Bounds, k: nat, chosen: seq<int>, l: Limited, omitted: nat, l': Limited,
      omitted': nat)
    requires k < |nodes| && LeftBy(nodes, k, chosen, l, omitted) && !Fits(nodes, chosen, bounds, k)
    requires Advances(nodes, bounds, k, l, omitted, l', omitted')
    requires forall x :: x in chosen ==> x < k
    ensures LeftBy(nodes, k + 1, chosen, l', omitted')
  {
    assert k !in chosen;
  }

  lemma ChoosingSkips(nodes: seq<Node>, bounds: Bounds, k: nat, chosen: seq<int>)
    requires k < |nodes| && ChosenTo(nodes, bounds, k, chosen) && !Fits(nodes, chosen, bounds, k)
    ensures ChosenTo(nodes, bounds, k + 1, chosen)
  {
    assert k !in chosen;
  }

  ghost function Choice(nodes: seq<Node>, bounds: Bounds, k: nat): seq<int>
    requires k <= |nodes|
  {
    if k == 0 then []
    else
      var before := Choice(nodes, bounds, k - 1);
      if Fits(nodes, before, bounds, k - 1) then before + [k - 1] else before
  }

  lemma {:induction false} ChoiceIsChosen(nodes: seq<Node>, bounds: Bounds, k: nat)
    requires k <= |nodes|
    ensures ChosenTo(nodes, bounds, k, Choice(nodes, bounds, k))
  {
    if k > 0 {
      var before := Choice(nodes, bounds, k - 1);
      ChoiceIsChosen(nodes, bounds, k - 1);
      if Fits(nodes, before, bounds, k - 1) {
        ChoosingStays(nodes, bounds, k - 1, before);
      } else {
        ChoosingSkips(nodes, bounds, k - 1, before);
      }
    }
  }

  lemma {:induction false} ChoiceIsBelow(nodes: seq<Node>, bounds: Bounds, k: nat)
    requires k <= |nodes|
    ensures forall x :: x in Choice(nodes, bounds, k) ==> x < k
  {
    if k > 0 { ChoiceIsBelow(nodes, bounds, k - 1); }
  }

  /** Whatever advances like the bounds do leaves the choice. */
  lemma {:induction false} ChoiceIsLeft(nodes: seq<Node>, bounds: Bounds, left: nat -> (Limited, nat), k: nat)
    requires k <= |nodes| && left(0) == (Limited([], 0, 0), 0)
    requires forall x: nat :: x < |nodes| ==>
      Advances(nodes, bounds, x, left(x).0, left(x).1, left(x + 1).0, left(x + 1).1)
    ensures LeftBy(nodes, k, Choice(nodes, bounds, k), left(k).0, left(k).1)
  {
    if k > 0 {
      var x: nat, before := k - 1, Choice(nodes, bounds, k - 1);
      ChoiceIsLeft(nodes, bounds, left, x);
      ChoiceIsBelow(nodes, bounds, x);
      assert Advances(nodes, bounds, x, left(x).0, left(x).1, left(x + 1).0, left(x + 1).1);
      if Fits(nodes, before, bounds, x) {
        StepIsTaken(nodes, bounds, x, before, left(x).0, left(x).1, left(k).0, left(k).1);
      } else {
        StepIsSkipped(nodes, bounds, x, before, left(x).0, left(x).1, left(k).0, left(k).1);
      }
    }
  }

  lemma ChoiceIsSurvival(nodes: seq<Node>, bounds: Bounds)
    ensures LeftBy(nodes, |nodes|, Choice(nodes, bounds, |nodes|), LimitedTo(nodes, bounds, |nodes|),
                   OmittedTo(nodes, bounds, |nodes|))
  {
    var left := (k: nat) =>
      if k <= |nodes| then (LimitedTo(nodes, bounds, k), OmittedTo(nodes, bounds, k)) else (Limited([], 0, 0), 0);
    assert nodes[..0] == [];
    forall x: nat | x < |nodes|
      ensures Advances(nodes, bounds, x, left(x).0, left(x).1, left(x + 1).0, left(x + 1).1)
    {
      OneMoreNode(nodes, bounds, x);
    }
    ChoiceIsLeft(nodes, bounds, left, |nodes|);
  }

  // ----- What is left out

  function Beyond(count: nat, bound: nat): nat {
    if count > bound then count - bound else 0
  }

  /** The graph has an edge between the two nodes. */
  predicate HasEdge(g: Graph, l: Node, r: Node) {
    exists e :: e in g.edges && {e.left, e.right} == {l, r}
  }

  predicate StandThere(kept: seq<Node>, p: (int, int), l: Node, r: Node) {
    ComparableAt(kept, p.0, p.1) && {kept[p.0], kept[p.1]} == {l, r}
  }

  /** The two nodes stand at a pair of positions among the first that are looked at. */
  predicate Evaluated(kept: seq<Node>, positions: seq<(int, int)>, bound: nat, l: Node, r: Node) {
    exists k :: 0 <= k < |positions| && k < bound && StandThere(kept, positions[k], l, r)
  }

  lemma EdgeIsOfItsPair(p: (Node, Node))
    requires WellFormed(p.0) && WellFormed(p.1)
    ensures {EdgeOf(p).left, EdgeOf(p).right} == {p.0, p.1}
    ensures EdgeOf(p).facts.Overlapping() ==> NodesMeet(EdgeOf(p).left, EdgeOf(p).right)
  {
    var (l, r) := OrderNodes(p.0, p.1);
    OverlappingIffMeet(l, r);
  }

  lemma EdgeWasEvaluated(pairs: seq<(Node, Node)>, kept: seq<Node>, positions: seq<(int, int)>, bound: nat, e: Edge)
    requires StandAt(pairs, kept, positions) && AllWellFormed(kept)
    requires e in EdgesOf(pairs[..Min(|pairs|, bound)])
    ensures Evaluated(kept, positions, bound, e.left, e.right) && NodesMeet(e.left, e.right)
  {
    var looked := pairs[..Min(|pairs|, bound)];
    EdgesAreTheMeetings(looked, e);
    var p :| p in looked && e == EdgeOf(p) && e.facts.Overlapping();
    var k := PairIsEarly(pairs, kept, positions, bound, p);
    EdgeIsOfItsPair(p);
    assert StandThere(kept, positions[k], e.left, e.right);
  }

  lemma PairIsEarly(pairs: seq<(Node, Node)>, kept: seq<Node>, positions: seq<(int, int)>, bound: nat, p: (Node, Node))
    returns (k: nat)
    requires StandAt(pairs, kept, positions) && p in pairs[..Min(|pairs|, bound)]
    ensures k < |positions| && k < bound && ComparableAt(kept, positions[k].0, positions[k].1)
    ensures p == (kept[positions[k].0], kept[positions[k].1]) && p.0 in kept && p.1 in kept
  {
    k :| 0 <= k < Min(|pairs|, bound) && pairs[k] == p;
  }

  lemma EvaluatedHasEdge(pairs: seq<(Node, Node)>, kept: seq<Node>, positions: seq<(int, int)>, bound: nat, l: Node,
      r: Node)
    returns (e: Edge)
    requires StandAt(pairs, kept, positions) && AllWellFormed(kept)
    requires Evaluated(kept, positions, bound, l, r) && NodesMeet(l, r)
    ensures e in EdgesOf(pairs[..Min(|pairs|, bound)]) && {e.left, e.right} == {l, r}
  {
    var k :| 0 <= k < |positions| && k < bound && StandThere(kept, positions[k], l, r);
    var looked := pairs[..Min(|pairs|, bound)];
    var p := pairs[k];
    assert looked[k] == p && p in looked;
    SamePair(p, l, r);
    PairHasEdge(looked, p, l, r);
    e := EdgeOf(p);
  }

  lemma SamePair(p: (Node, Node), l: Node, r: Node)
    requires {p.0, p.1} == {l, r}
    ensures p == (l, r) || p == (r, l)
  {
    assert p.0 in {l, r} && p.1 in {l, r} && l in {p.0, p.1} && r in {p.0, p.1};
    assert p == (p.0, p.1);
  }

  lemma EdgesAreEvaluated(nodes: seq<Node>, bounds: Bounds, kept: seq<Node>, positions: seq<(int, int)>, l: Node,
      r: Node)
    requires AllWellFormed(nodes) && kept == Survivors(nodes, bounds) && StandAt(PairsOf(kept), kept, positions)
    ensures HasEdge(GraphOf(nodes, bounds), l, r) <==>
      Evaluated(kept, positions, bounds.maxPairs, l, r) && NodesMeet(l, r)
  {
    var g, pairs := GraphOf(nodes, bounds), PairsOf(kept);
    var found := EdgesOf(pairs[..Min(|pairs|, bounds.maxPairs)]);
    SurvivorsAreNodes(nodes, bounds);
    Sorting.SortKeepsElements(found, EdgeKey);
    if e :| e in g.edges && {e.left, e.right} == {l, r} {
      EdgeWasEvaluated(pairs, kept, positions, bounds.maxPairs, e);
      SamePair((e.left, e.right), l, r);
      MeetingIsSymmetric(l, r);
    }
    if Evaluated(kept, positions, bounds.maxPairs, l, r) && NodesMeet(l, r) {
      var e := EvaluatedHasEdge(pairs, kept, positions, bounds.maxPairs, l, r);
      assert e in g.edges;
    }
  }

  lemma SurvivorsAreChosen(nodes: seq<Node>, bounds: Bounds)
    ensures var chosen := Choice(nodes, bounds, |nodes|);
      && Chosen(nodes, chosen, bounds) && PicksOut(chosen, Survivors(nodes, bounds), nodes)
      && SelectorsLost(nodes, bounds) == Load(nodes, chosen, |nodes|, false)
  {
    ChoiceIsChosen(nodes, bounds, |nodes|);
    ChoiceIsSurvival(nodes, bounds);
    assert nodes[..|nodes|] == nodes;
  }

  /** A graph, complete or not, by its input. Nodes are kept while they fit, and their comparable pairs are looked
      at in the order of their positions, up to the bound: between two nodes there is an edge if and only if they
      were looked at and name a common path. Left out are the sessions beyond the bound, the selectors of the
      nodes that are not kept, and the pairs beyond the bound. */
  lemma GraphIsCounted(nodes: seq<Node>, bounds: Bounds)
    returns (chosen: seq<int>, kept: seq<Node>, positions: seq<(int, int)>)
    requires AllWellFormed(nodes)
    ensures Chosen(nodes, chosen, bounds) && PicksOut(chosen, kept, nodes) && ListsPairs(kept, positions)
    ensures GraphOf(nodes, bounds).omittedSessions == Beyond(|SessionsIn(nodes)|, bounds.maxSessions)
    ensures GraphOf(nodes, bounds).unevaluatedSelectors == Load(nodes, chosen, |nodes|, false)
    ensures GraphOf(nodes, bounds).unevaluatedPairs == Beyond(|positions|, bounds.maxPairs)
    ensures forall l, r :: HasEdge(GraphOf(nodes, bounds), l, r) <==>
      Evaluated(kept, positions, bounds.maxPairs, l, r) && NodesMeet(l, r)
  {
    chosen, kept := Choice(nodes, bounds, |nodes|), Survivors(nodes, bounds);
    SurvivorsAreChosen(nodes, bounds);
    SessionsAreCounted(nodes, bounds.maxSessions);
    positions := PairsAreListed(kept);
    forall l, r ensures HasEdge(GraphOf(nodes, bounds), l, r) <==>
        Evaluated(kept, positions, bounds.maxPairs, l, r) && NodesMeet(l, r) {
      EdgesAreEvaluated(nodes, bounds, kept, positions, l, r);
    }
  }
}
