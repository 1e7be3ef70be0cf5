/** Overlap nodes built from claims and intents, and the facts about a pair of nodes. */
module ResourceCoordination {
  import opened GlobLanguage
  import opened ResourceClaims
  import opened Resources
  import opened Selectors
  import opened Wrappers
  import Sorting
  import Strings

  datatype IntentMode = ReadOnly | WriteIntent | Create | Delete

  datatype Intent = Intent(
    intentId: string, sessionId: string, repositoryId: Option<string>, claimId: Option<string>, mode: IntentMode,
    selector: Selector)

  datatype Node = Node(
    nodeId: string, sessionId: string, repositoryId: Option<string>, claim: Option<Claim>,
    intents: seq<Intent>, selectors: seq<Selector>)

  datatype OverlapFacts = OverlapFacts(
    exactResourceMatch: bool, selectorIntersection: bool, parentChildOverlap: bool, createCreateCollision: bool) {
    predicate Overlapping() {
      exactResourceMatch || selectorIntersection || parentChildOverlap || createCreateCollision
    }
  }

  // ----- Nodes

  predicate HasWildcard(s: string) {
    '*' in s || '?' in s
  }

  function ClaimSelector(c: Claim): Selector {
    Selector(if HasWildcard(c.resource) then Glob else Exact, c.resource)
  }

  predicate AttachedTo(i: Intent, c: Claim) {
    i.claimId == Some(c.claimId) && i.sessionId == c.sessionId
  }

  function Attached(intents: seq<Intent>, c: Claim): (a: seq<Intent>)
    ensures forall i :: i in a <==> i in intents && AttachedTo(i, c)
  {
    if intents == [] then []
    else (if AttachedTo(intents[0], c) then [intents[0]] else []) + Attached(intents[1..], c)
  }

  function SelectorsOf(intents: seq<Intent>): (s: seq<Selector>)
    ensures |s| == |intents| && forall k :: 0 <= k < |s| ==> s[k] == intents[k].selector
  {
    seq(|intents|, k requires 0 <= k < |intents| => intents[k].selector)
  }

  function SelectorKey(s: Selector): string {
    s.kind.Name() + "\0" + s.resource
  }

  function UniqueSelectors(s: seq<Selector>): seq<Selector> {
    Sorting.SortBy(Sorting.Unique(s), SelectorKey)
  }

  function ClaimNode(c: Claim, intents: seq<Intent>): Node {
    var attached := Attached(intents, c);
    Node(c.claimId, c.sessionId, Some(c.repositoryId), Some(c), attached,
         UniqueSelectors([ClaimSelector(c)] + SelectorsOf(attached)))
  }

  function ClaimNodes(claims: seq<Claim>, intents: seq<Intent>): (nodes: seq<Node>)
    ensures |nodes| == |claims| && forall k :: 0 <= k < |nodes| ==> nodes[k] == ClaimNode(claims[k], intents)
  {
    seq(|claims|, k requires 0 <= k < |claims| => ClaimNode(claims[k], intents))
  }

  /** The identifiers of the intents attached to a claim. */
  function ClaimedIds(claims: seq<Claim>, intents: seq<Intent>): set<string> {
    set c, i | c in claims && i in intents && AttachedTo(i, c) :: i.intentId
  }

  function IntentNode(i: Intent): Node {
    Node(i.intentId, i.sessionId, i.repositoryId, None, [i], [i.selector])
  }

  function FreeNodes(intents: seq<Intent>, claimed: set<string>): seq<Node> {
    if intents == [] then []
    else
      (if intents[0].intentId in claimed then [] else [IntentNode(intents[0])]) + FreeNodes(intents[1..], claimed)
  }

  lemma {:induction false} FreeNodesAreTheUnclaimed(intents: seq<Intent>, claimed: set<string>, n: Node)
    ensures n in FreeNodes(intents, claimed) <==>
      exists i :: i in intents && i.intentId !in claimed && n == IntentNode(i)
  {
    if intents != [] {
      FreeNodesAreTheUnclaimed(intents[1..], claimed, n);
      assert intents == [intents[0]] + intents[1..];
    }
  }

  function NodeKey(n: Node): string {
    n.sessionId + "\0" + n.nodeId
  }

  function ClaimIdOf(c: Claim): string {
    c.claimId
  }

  function IntentIdOf(i: Intent): string {
    i.intentId
  }

  function NodesOf(claims: seq<Claim>, intents: seq<Intent>): seq<Node> {
    var cs, plans := Sorting.SortBy(claims, ClaimIdOf), Sorting.SortBy(intents, IntentIdOf);
    Sorting.SortBy(ClaimNodes(cs, plans) + FreeNodes(plans, ClaimedIds(cs, plans)), NodeKey)
  }

  lemma ClaimedGrows(cs: seq<Claim>, intents: seq<Intent>, k: nat)
    requires k < |cs|
    ensures ClaimedIds(cs[..k + 1], intents)
      == ClaimedIds(cs[..k], intents) + set i | i in Attached(intents, cs[k]) :: i.intentId
  {
    assert cs[..k + 1] == cs[..k] + [cs[k]];
  }

  lemma ClaimNodesGrow(cs: seq<Claim>, intents: seq<Intent>, k: nat)
    requires k < |cs|
    ensures ClaimNodes(cs[..k + 1], intents) == ClaimNodes(cs[..k], intents) + [ClaimNode(cs[k], intents)]
  {
  }

  /** The nodes of the claims, and the intents they took. */
  method BuildClaimNodes(cs: seq<Claim>, plans: seq<Intent>) returns (nodes: seq<Node>, claimed: set<string>)
    ensures nodes == ClaimNodes(cs, plans) && claimed == ClaimedIds(cs, plans)
  {
    nodes, claimed := [], {};
    for k := 0 to |cs|
      invariant nodes == ClaimNodes(cs[..k], plans) && claimed == ClaimedIds(cs[..k], plans)
    {
      ClaimedGrows(cs, plans, k);
      ClaimNodesGrow(cs, plans, k);
      claimed := claimed + set i | i in Attached(plans, cs[k]) :: i.intentId;
      nodes := nodes + [ClaimNode(cs[k], plans)];
    }
    assert cs[..|cs|] == cs;
  }

  /** A node of its own for every intent no claim took. */
  method AddFreeNodes(nodes: seq<Node>, plans: seq<Intent>, claimed: set<string>) returns (all: seq<Node>)
    ensures all == nodes + FreeNodes(plans, claimed)
  {
    all := nodes;
    for k := 0 to |plans|
      invariant all + FreeNodes(plans[k..], claimed) == nodes + FreeNodes(plans, claimed)
    {
      assert plans[k..][1..] == plans[k + 1..];
      if plans[k].intentId !in claimed {
        all := all + [IntentNode(plans[k])];
      }
    }
    assert plans[|plans|..] == [];
  }

  method BuildNodes(claims: seq<Claim>, intents: seq<Intent>) returns (sorted: seq<Node>)
    ensures sorted == NodesOf(claims, intents)
  {
    var cs, plans := Sorting.SortBy(claims, ClaimIdOf), Sorting.SortBy(intents, IntentIdOf);
    var nodes, claimed := BuildClaimNodes(cs, plans);
    nodes := AddFreeNodes(nodes, plans, claimed);
    sorted := Sorting.SortBy(nodes, NodeKey);
  }

  // ----- Facts about a pair

  ghost predicate NodesMeet(l: Node, r: Node) {
    exists a, b :: a in l.selectors && b in r.selectors && SelectorsMeet(a, b)
  }

  ghost predicate NamesPath(n: Node, path: seq<string>) {
    exists s :: s in n.selectors && Names(s, path)
  }

  /** Two nodes meet exactly when some concrete path is named by both. */
  lemma MeetIsACommonPath(l: Node, r: Node)
    ensures NodesMeet(l, r) <==> exists path :: IsConcrete(path) && NamesPath(l, path) && NamesPath(r, path)
  {
    if a, b :| a in l.selectors && b in r.selectors && SelectorsMeet(a, b) {
      var path :| IsConcrete(path) && Names(a, path) && Names(b, path);
      assert NamesPath(l, path) && NamesPath(r, path);
    }
    if path :| IsConcrete(path) && NamesPath(l, path) && NamesPath(r, path) {
      var a :| a in l.selectors && Names(a, path);
      var b :| b in r.selectors && Names(b, path);
      assert SelectorsMeet(a, b);
    }
  }

  predicate WellFormed(n: Node) {
    && (forall s :: s in n.selectors ==> ValidSelector(s))
    && (forall i :: i in n.intents ==> i.selector in n.selectors)
    && (n.claim.Some? ==> IsCanonical(n.claim.value.resource))
  }

  ghost predicate IsParentChild(l: Selector, r: Selector) {
    if l.kind != Namespace && r.kind != Namespace then false
    else
      var namespace := if l.kind == Namespace then l.resource else r.resource;
      var other := if l.kind == Namespace then r else l;
      if other.kind != Glob then namespace != other.resource && PathPrefix(namespace, other.resource)
      else ResourcesOverlap(namespace + "/**/*", other.resource)
  }

  lemma BelowNamespaceIsPattern(namespace: string)
    requires IsCanonical(namespace)
    ensures IsPattern(Segments(namespace + "/**/*"))
  {
    CanonicalizationIsIdentity(namespace);
    Strings.SplitWhole("*", '/');
    Strings.SplitWhole("**", '/');
    Strings.SplitConcat("**", "*", '/');
    assert "**" + ['/'] + "*" == "**/*";
    Strings.SplitConcat(namespace, "**/*", '/');
    assert namespace + "/**/*" == namespace + ['/'] + "**/*";
  }

  method IsParentChildSelectorPair(l: Selector, r: Selector) returns (related: bool)
    requires ValidSelector(l) && ValidSelector(r)
    ensures related == IsParentChild(l, r)
  {
    if l.kind != Namespace && r.kind != Namespace { return false; }
    var namespace := if l.kind == Namespace then l.resource else r.resource;
    var other := if l.kind == Namespace then r else l;
    if other.kind != Glob { return namespace != other.resource && PathPrefix(namespace, other.resource); }
    BelowNamespaceIsPattern(namespace);
    CanonicalizationIsIdentity(other.resource);
    related := Selectors.GlobPatternsOverlap(namespace + "/**/*", other.resource);
  }

  predicate SameExact(a: Selector, b: Selector) {
    a.kind == Exact && b.kind == Exact && a.resource == b.resource
  }

  predicate BothCreate(i: Intent, j: Intent) {
    i.mode == Create && j.mode == Create
  }

  /** Two claim selectors count as meeting only if the claim engine agrees; it always does. */
  lemma ClaimEngineAgrees(c: Claim, d: Claim)
    requires IsCanonical(c.resource) && IsCanonical(d.resource)
    ensures ValidSelector(ClaimSelector(c)) && ValidSelector(ClaimSelector(d))
    ensures SelectorsMeet(ClaimSelector(c), ClaimSelector(d)) <==> ClaimsMeet(c, d)
  {
    MeetIffPatternsOverlap(ClaimSelector(c), ClaimSelector(d));
  }

  /** The three facts a pair of selectors can show. */
  datatype FactKind = ExactMatch | Intersection | ParentChild

  ghost predicate Shows(kind: FactKind, a: Selector, b: Selector) {
    SelectorsMeet(a, b) &&
    match kind
    case ExactMatch => SameExact(a, b)
    case Intersection => a.kind != Exact || b.kind != Exact
    case ParentChild => IsParentChild(a, b)
  }

  ghost predicate InRow(kind: FactKind, a: Selector, bs: seq<Selector>) {
    exists b :: b in bs && Shows(kind, a, b)
  }

  ghost predicate InTable(kind: FactKind, xs: seq<Selector>, bs: seq<Selector>) {
    exists a :: a in xs && InRow(kind, a, bs)
  }

  ghost predicate CreateMeets(i: Intent, others: seq<Intent>) {
    exists j :: j in others && BothCreate(i, j) && SelectorsMeet(i.selector, j.selector)
  }

  ghost predicate CreatesCollide(xs: seq<Intent>, others: seq<Intent>) {
    exists i :: i in xs && CreateMeets(i, others)
  }

  ghost function FactsOf(l: Node, r: Node): OverlapFacts {
    OverlapFacts(
      InTable(ExactMatch, l.selectors, r.selectors),
      InTable(Intersection, l.selectors, r.selectors),
      InTable(ParentChild, l.selectors, r.selectors),
      CreatesCollide(l.intents, r.intents))
  }

  /** The pair is reported as overlapping exactly when the two nodes name a common path. */
  lemma OverlappingIffMeet(l: Node, r: Node)
    requires WellFormed(l) && WellFormed(r)
    ensures FactsOf(l, r).Overlapping() <==> NodesMeet(l, r)
  {
    if a, b :| a in l.selectors && b in r.selectors && SelectorsMeet(a, b) {
      if a.kind == Exact && b.kind == Exact { ExactsMeet(a, b); }
    }
  }

  method PairOverlaps(a: Selector, b: Selector, l: Node, r: Node, claimsMeet: bool) returns (overlaps: bool)
    requires ValidSelector(a) && ValidSelector(b) && WellFormed(l) && WellFormed(r)
    requires l.claim.Some? && r.claim.Some? ==> claimsMeet == ClaimsMeet(l.claim.value, r.claim.value)
    ensures overlaps == SelectorsMeet(a, b)
  {
    overlaps := ResourceSelectorsOverlap(a, b);
    if l.claim.Some? && r.claim.Some? && a == ClaimSelector(l.claim.value) && b == ClaimSelector(r.claim.value) {
      ClaimEngineAgrees(l.claim.value, r.claim.value);
      overlaps := overlaps && claimsMeet;
    }
  }

  lemma RowGrows(kind: FactKind, a: Selector, bs: seq<Selector>, j: nat)
    requires j < |bs|
    ensures InRow(kind, a, bs[..j + 1]) <==> InRow(kind, a, bs[..j]) || Shows(kind, a, bs[j])
  {
    assert bs[..j + 1] == bs[..j] + [bs[j]];
  }

  lemma TableGrows(kind: FactKind, xs: seq<Selector>, bs: seq<Selector>, i: nat)
    requires i < |xs|
    ensures InTable(kind, xs[..i + 1], bs) <==> InTable(kind, xs[..i], bs) || InRow(kind, xs[i], bs)
  {
    assert xs[..i + 1] == xs[..i] + [xs[i]];
  }

  /** The facts one selector of the left node shows against the right node. */
  method RowFacts(a: Selector, l: Node, r: Node, claimsMeet: bool) returns (exact: bool, inter: bool, child: bool)
    requires WellFormed(l) && WellFormed(r) && a in l.selectors
    requires l.claim.Some? && r.claim.Some? ==> claimsMeet == ClaimsMeet(l.claim.value, r.claim.value)
    ensures exact == InRow(ExactMatch, a, r.selectors)
    ensures inter == InRow(Intersection, a, r.selectors)
    ensures child == InRow(ParentChild, a, r.selectors)
  {
    var bs := r.selectors;
    exact, inter, child := false, false, false;
    for j := 0 to |bs|
      invariant exact == InRow(ExactMatch, a, bs[..j])
      invariant inter == InRow(Intersection, a, bs[..j])
      invariant child == InRow(ParentChild, a, bs[..j])
    {
      RowGrows(ExactMatch, a, bs, j);
      RowGrows(Intersection, a, bs, j);
      RowGrows(ParentChild, a, bs, j);
      var overlaps := PairOverlaps(a, bs[j], l, r, claimsMeet);
      if overlaps {
        if a.kind == Exact && bs[j].kind == Exact && a.resource == bs[j].resource { exact := true; }
        if a.kind != Exact || bs[j].kind != Exact { inter := true; }
        var related := IsParentChildSelectorPair(a, bs[j]);
        if related { child := true; }
      }
    }
    assert bs[..|bs|] == bs;
  }

  method CreateMeetsAny(i: Intent, others: seq<Intent>) returns (meets: bool)
    requires ValidSelector(i.selector) && forall j :: j in others ==> ValidSelector(j.selector)
    ensures meets == CreateMeets(i, others)
  {
    meets := false;
    if i.mode != Create { return; }
    for k := 0 to |others|
      invariant meets == CreateMeets(i, others[..k])
    {
      assert others[..k + 1] == others[..k] + [others[k]];
      if others[k].mode == Create {
        var overlap := ResourceSelectorsOverlap(i.selector, others[k].selector);
        if overlap { meets := true; }
      }
    }
    assert others[..|others|] == others;
  }

  method FindOverlapFacts(left: Node, right: Node) returns (facts: OverlapFacts)
    requires WellFormed(left) && WellFormed(right)
    ensures facts == FactsOf(left, right)
  {
    var exact, inter, child, create, claimsMeet := false, false, false, false, false;
    if left.claim.Some? && right.claim.Some? {
      claimsMeet := ClaimsOverlap(left.claim.value, right.claim.value);
    }
    var xs, bs := left.selectors, right.selectors;
    for i := 0 to |xs|
      invariant exact == InTable(ExactMatch, xs[..i], bs)
      invariant inter == InTable(Intersection, xs[..i], bs)
      invariant child == InTable(ParentChild, xs[..i], bs)
    {
      TableGrows(ExactMatch, xs, bs, i);
      TableGrows(Intersection, xs, bs, i);
      TableGrows(ParentChild, xs, bs, i);
      var e, n, c := RowFacts(xs[i], left, right, claimsMeet);
      exact, inter, child := exact || e, inter || n, child || c;
    }
    assert xs[..|xs|] == xs;
    var plans := left.intents;
    for i := 0 to |plans|
      invariant create == CreatesCollide(plans[..i], right.intents)
    {
      assert plans[..i + 1] == plans[..i] + [plans[i]];
      var meets := CreateMeetsAny(plans[i], right.intents);
      create := create || meets;
    }
    assert plans[..|plans|] == plans;
    facts := OverlapFacts(exact, inter, child, create);
  }
}
