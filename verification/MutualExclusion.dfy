/** What two authorizations in one snapshot cannot both be. */
module MutualExclusion {
  import opened Authorization
  import opened ClaimSets
  import opened CoordinationTransactions
  import opened GlobLanguage
  import opened ResourceClaims
  import opened Resources
  import opened Strings
  import opened Wrappers

  ghost predicate AllowedOn(
    s: Snapshot, operation: string, sessionId: string, resources: seq<string>, facts: FactSource, access: Mode)
  {
    Authorize(s, operation, sessionId, resources, facts).Ok?
    && Authorize(s, operation, sessionId, resources, facts).value.Allowed?
    && Authorize(s, operation, sessionId, resources, facts).value.access == access
  }

  lemma {:induction false} EveryPathIsAuthorized(
    own: seq<Claim>, external: seq<Claim>, resources: seq<string>, access: Mode, facts: FactSource, path: string)
    requires AuthorizePaths(own, external, resources, access, facts).Ok? && path in resources
    ensures AuthorizePath(own, external, path, access, facts).Ok?
  {
    if path != resources[|resources| - 1] {
      EveryPathIsAuthorized(own, external, resources[..|resources| - 1], access, facts, path);
    }
  }

  lemma AllowedMeansEveryPath(
    s: Snapshot, operation: string, sessionId: string, resources: seq<string>, facts: FactSource, access: Mode,
    path: string)
    requires AllowedOn(s, operation, sessionId, resources, facts, access) && path in resources
    ensures AuthorizePath(Own(s.claims, sessionId), External(s.claims, sessionId), path, access, facts).Ok?
    ensures IsCanonical(path)
  {
    CanonicalPathsAreAsGiven(resources);
    var own, external := Own(s.claims, sessionId), External(s.claims, sessionId);
    assert AuthorizePaths(own, external, resources, access, facts).Ok?;
    EveryPathIsAuthorized(own, external, resources, access, facts, path);
  }

  /** The claim an authorization rests on: it matches the path, grants the access, and conflicts
      with no claim of another session. */
  lemma RestsOn(s: Snapshot, operation: string, sessionId: string, resources: seq<string>, facts: FactSource,
      access: Mode, path: string)
    returns (g: Claim)
    requires AllowedOn(s, operation, sessionId, resources, facts, access) && path in resources
    ensures g in s.claims && g.sessionId == sessionId && ResourcesOverlap(g.resource, path)
      && GrantsAccess(g.mode, access)
    ensures IsCanonical(path)
    ensures forall e :: e in s.claims && e.sessionId != sessionId ==> !Conflicts(g, e, facts(g, e))
  {
    AllowedMeansEveryPath(s, operation, sessionId, resources, facts, access, path);
    g := AuthorizedBy(Own(s.claims, sessionId), External(s.claims, sessionId), path, access, facts);
  }

  lemma AuthorizedBy(own: seq<Claim>, external: seq<Claim>, path: string, access: Mode, facts: FactSource)
    returns (g: Claim)
    requires AuthorizePath(own, external, path, access, facts).Ok?
    ensures g in own && ResourcesOverlap(g.resource, path) && GrantsAccess(g.mode, access)
    ensures forall e :: e in external ==> !Conflicts(g, e, facts(g, e))
  {
    var granting := Granting(Matching(own, path), access);
    g := granting[0];
    assert g in granting;
  }

  lemma MeetOnPath(g: Claim, h: Claim, path: string)
    requires IsCanonical(path) && WildcardFree(path)
    requires ResourcesOverlap(g.resource, path) && ResourcesOverlap(h.resource, path)
    ensures ClaimsMeet(g, h)
  {
    ConcreteOverlap(g.resource, path);
    ConcreteOverlap(h.resource, path);
    CanonicalizationIsIdentity(path);
    assert IsConcrete(Segments(path));
  }

  /** While one session is authorized for an exclusive operation on a path without wildcards, no
      other session is authorized for any operation on it. */
  lemma ExclusiveExcludes(
    s: Snapshot, path: string,
    opA: string, a: string, pathsA: seq<string>, factsA: FactSource,
    opB: string, b: string, pathsB: seq<string>, factsB: FactSource, accessB: Mode)
    requires a != b && path in pathsA && path in pathsB && WildcardFree(path) && Honest(factsA)
    requires AllowedOn(s, opA, a, pathsA, factsA, ExclusiveWrite)
    ensures !AllowedOn(s, opB, b, pathsB, factsB, accessB)
  {
    if AllowedOn(s, opB, b, pathsB, factsB, accessB) {
      var g := RestsOn(s, opA, a, pathsA, factsA, ExclusiveWrite, path);
      var h := RestsOn(s, opB, b, pathsB, factsB, accessB, path);
      assert !Conflicts(g, h, factsA(g, h));
      MeetOnPath(g, h, path);
    }
  }

  /** Two sessions are both authorized to write a path without wildcards only through writes of
      one sharing group that evidence vouches for. */
  lemma SharedWritesAreGrouped(
    s: Snapshot, path: string,
    opA: string, a: string, pathsA: seq<string>, factsA: FactSource,
    opB: string, b: string, pathsB: seq<string>, factsB: FactSource) returns (g: Claim, h: Claim)
    requires a != b && path in pathsA && path in pathsB && WildcardFree(path) && Honest(factsA)
    requires AllowedOn(s, opA, a, pathsA, factsA, Write) && AllowedOn(s, opB, b, pathsB, factsB, Write)
    ensures g in s.claims && h in s.claims && g.sessionId == a && h.sessionId == b
    ensures ResourcesOverlap(g.resource, path) && ResourcesOverlap(h.resource, path)
    ensures InOneGroup(g, h) && Permitted(factsA(g, h))
  {
    g := RestsOn(s, opA, a, pathsA, factsA, Write, path);
    h := RestsOn(s, opB, b, pathsB, factsB, Write, path);
    MeetOnPath(g, h, path);
  }

  lemma MatchingIsSingle(own: seq<Claim>, path: string)
    requires IsCanonical(path) && WildcardFree(path) && NoDuplicates(own)
    requires forall c, d :: c in own && d in own && c != d ==> !ClaimsMeet(c, d)
    ensures |Matching(own, path)| <= 1
  {
    var matching := Matching(own, path);
    MatchingOnce(own, path);
    FirstTwoDiffer(matching);
    if |matching| > 1 {
      MeetOnPath(matching[0], matching[1], path);
    }
  }

  /** In a coordinated claim set at most one own claim matches a path without wildcards, so looking
      at the first granting claim is looking at all of them. */
  lemma OneOwnClaimMatches(claims: seq<Claim>, sessionId: string, path: string, access: Mode)
    requires Coordinated(claims) && IsCanonical(path) && WildcardFree(path)
    ensures |Matching(Own(claims, sessionId), path)| <= 1
    ensures |Granting(Matching(Own(claims, sessionId), path), access)| <= 1
  {
    var own := Own(claims, sessionId);
    OwnIsListedOnce(claims, sessionId);
    MatchingIsSingle(own, path);
    GrantingIsShorter(Matching(own, path), access);
  }

  lemma {:induction false} MatchingOnce(own: seq<Claim>, path: string)
    ensures forall c :: multiset(Matching(own, path))[c] <= multiset(own)[c]
  {
    if own != [] {
      MatchingOnce(own[1..], path);
      assert own == [own[0]] + own[1..];
    }
  }

  lemma FirstTwoDiffer<T>(s: seq<T>)
    requires forall x :: multiset(s)[x] <= 1
    ensures |s| > 1 ==> s[0] != s[1]
  {
    if |s| > 1 {
      assert s == [s[0]] + [s[1]] + s[2..];
      assert multiset(s)[s[0]] >= if s[0] == s[1] then 2 else 1;
    }
  }

  lemma {:induction false} GrantingIsShorter(matching: seq<Claim>, access: Mode)
    ensures |Granting(matching, access)| <= |matching|
  {
    if matching != [] { GrantingIsShorter(matching[1..], access); }
  }

  // ----- Paths with wildcards: the claim search reads them as patterns

  function Instance(s: string, c: char): (t: string)
    ensures |t| == |s|
    ensures forall k :: 0 <= k < |s| ==> t[k] == if s[k] == '*' || s[k] == '?' then c else s[k]
  {
    if s == "" then "" else [if s[0] == '*' || s[0] == '?' then c else s[0]] + Instance(s[1..], c)
  }

  lemma {:induction false} InstanceMatchesSegment(s: string, c: char)
    requires '/' !in s && c != '/'
    ensures SegMatch(s, Instance(s, c))
  {
    if s != "" {
      assert s[0] in s;
      assert Instance(s, c)[1..] == Instance(s[1..], c);
      InstanceMatchesSegment(s[1..], c);
      assert SegMatch(s[1..], Instance(s[1..], c)) && (s[0] == '*' ==> SegMatch(s, Instance(s, c)[1..]));
    }
  }

  function Instances(p: seq<string>, c: char): (q: seq<string>)
    ensures |q| == |p| && forall k :: 0 <= k < |p| ==> q[k] == Instance(p[k], c)
  {
    seq(|p|, k requires 0 <= k < |p| => Instance(p[k], c))
  }

  lemma {:induction false} InstanceSplits(s: string, c: char)
    requires c != '/'
    ensures Split(Instance(s, c), '/') == Instances(Split(s, '/'), c)
  {
    if s != "" {
      var t := Instance(s, c);
      assert t[1..] == Instance(s[1..], c);
      InstanceSplits(s[1..], c);
      var rest := Split(s[1..], '/');
      if s[0] != '/' {
        assert Split(t, '/')[0] == Instance([s[0]] + rest[0], c);
      }
    }
  }

  lemma {:induction false} InstancesMatch(p: seq<string>, c: char)
    requires AllNames(p) && c != '/'
    ensures PathMatch(p, Instances(p, c))
  {
    if p != [] {
      assert AllNames(p[1..]);
      assert Instances(p, c)[1..] == Instances(p[1..], c);
      InstancesMatch(p[1..], c);
      InstanceMatchesSegment(p[0], c);
      assert p[0] == "**" ==> PathMatch(p, Instances(p[1..], c));
    }
  }

  lemma InstanceSegment(p: string, c: char)
    requires c == '0' || c == '1'
    requires IsName(p) && p != "." && p != ".." && !HasBrackets(p)
    ensures var q := Instance(p, c); IsName(q) && q != "." && q != ".." && !HasBrackets(q) && !HasDoubleStar(q)
  {
    var q := Instance(p, c);
    forall i | 0 <= i < |q| ensures q[i] == c || (q[i] == p[i] && q[i] in p) {
      assert p[i] in p;
    }
  }

  lemma InstanceIsValid(x: string, c: char)
    requires c == '0' || c == '1'
    requires ValidateResourceString(x) == None
    ensures ValidateResourceString(Instance(x, c)) == None && WildcardFree(Instance(x, c))
  {
    var t := Instance(x, c);
    forall i | 0 <= i < |t| ensures t[i] == c || (t[i] == x[i] && t[i] in x) {
      assert x[i] in x;
    }
  }

  lemma PlainSegmentsAreCanonical(t: string)
    requires forall s :: s in Segments(t) ==> IsName(s) && s != "." && s != ".." && !HasBrackets(s) && !HasDoubleStar(s)
    ensures CanonicalResourceSyntax(t) == Ok(t)
  {
    JoinSplit(t, '/');
  }

  lemma InstanceSyntax(x: string, c: char)
    requires IsCanonical(x) && (c == '0' || c == '1')
    ensures CanonicalResourceSyntax(Instance(x, c)) == Ok(Instance(x, c))
  {
    var t := Instance(x, c);
    CanonicalizationIsIdentity(x);
    InstanceSplits(x, c);
    var p, q := Segments(x), Segments(t);
    forall s | s in q ensures IsName(s) && s != "." && s != ".." && !HasBrackets(s) && !HasDoubleStar(s) {
      var k :| 0 <= k < |q| && q[k] == s;
      assert p[k] in p;
      InstanceSegment(p[k], c);
    }
    PlainSegmentsAreCanonical(t);
  }

  /** Putting a digit for every wildcard of a canonical resource gives a canonical path it selects. */
  lemma InstanceIsCanonical(x: string, c: char)
    requires IsCanonical(x) && (c == '0' || c == '1')
    ensures IsCanonical(Instance(x, c)) && WildcardFree(Instance(x, c)) && ResourcesOverlap(Instance(x, c), x)
  {
    var t := Instance(x, c);
    InstanceIsValid(x, c);
    InstanceSyntax(x, c);
    CanonicalizationIsIdentity(x);
    InstancesMatch(Segments(x), c);
    InstanceSplits(x, c);
    ConcreteOverlap(x, t);
    OverlapIsSymmetric(x, t);
  }

  /** Two different paths without wildcards have nothing in common. */
  lemma DifferentPathsAreApart(a: string, b: string)
    requires IsCanonical(a) && IsCanonical(b) && WildcardFree(a) && WildcardFree(b) && a != b
    ensures !ResourcesOverlap(a, b)
  {
    ConcreteOverlap(a, b);
    LiteralParts(a);
    LiteralPath(Segments(a), Segments(b));
    if Segments(a) == Segments(b) { SplitIsInjective(a, b, '/'); }
  }

  function NoFacts(): FactSource {
    (l: Claim, r: Claim) => None
  }

  function TwoSessions(x: string): Snapshot {
    var a, b := Session("a", "active", "repo", "/a"), Session("b", "active", "repo", "/b");
    Snapshot("repo", 0, [a, b], [
      CreateClaim(Instance(x, '0'), ExclusiveWrite, None, a.Owner(), "t"),
      CreateClaim(Instance(x, '1'), ExclusiveWrite, None, b.Owner(), "t")])
  }

  lemma OnePathIsAuthorized(x: string, mine: Claim, other: Claim)
    requires ResourcesOverlap(mine.resource, x) && mine.mode == ExclusiveWrite && !ClaimsMeet(mine, other)
    ensures AuthorizePaths([mine], [other], [x], ExclusiveWrite, NoFacts()).Ok?
  {
    assert [mine][1..] == [] && Matching([], x) == [];
    assert Matching([mine], x) == [mine] && Granting([mine], ExclusiveWrite) == [mine];
    assert AuthorizePath([mine], [other], x, ExclusiveWrite, NoFacts()).Ok?;
    assert [x][..0] == [] && AuthorizePaths([mine], [other], [], ExclusiveWrite, NoFacts()) == Ok([]);
  }

  lemma AllowedWithOneClaim(s: Snapshot, sessionId: string, x: string, mine: Claim, other: Claim)
    requires Own(s.claims, sessionId) == [mine] && External(s.claims, sessionId) == [other]
    requires AssertSnapshot(s) == None && FindSession(s.sessions, sessionId).Some?
    requires FindSession(s.sessions, sessionId).value.state == "active"
    requires FindSession(s.sessions, sessionId).value.repositoryId == s.repositoryId
    requires IsCanonical(x) && ResourcesOverlap(mine.resource, x) && mine.mode == ExclusiveWrite
      && !ClaimsMeet(mine, other)
    ensures AllowedOn(s, "commit", sessionId, [x], NoFacts(), ExclusiveWrite)
  {
    assert CanonicalizePaths([x]) == Some([x]) by {
      assert [x][1..] == [] && CanonicalizePaths([]) == Some([]) && [x] + [] == [x];
    }
    OnePathIsAuthorized(x, mine, other);
  }

  lemma TwoApartAreCoordinated(ca: Claim, cb: Claim)
    requires IsCanonical(ca.resource) && IsCanonical(cb.resource) && !ClaimsMeet(ca, cb)
    requires ca.sessionId != cb.sessionId && '\0' !in ca.sessionId && '\0' !in cb.sessionId
    ensures Coordinated([ca, cb])
  {
    OverlapIsSymmetric(ca.resource, cb.resource);
    assert multiset([ca, cb]) == multiset{ca, cb};
  }

  lemma InstancesAreApart(x: string)
    requires IsCanonical(x) && !WildcardFree(x)
    ensures !ResourcesOverlap(Instance(x, '0'), Instance(x, '1'))
      && !ResourcesOverlap(Instance(x, '1'), Instance(x, '0'))
  {
    InstanceIsCanonical(x, '0');
    InstanceIsCanonical(x, '1');
    var k :| 0 <= k < |x| && (x[k] == '*' || x[k] == '?');
    assert Instance(x, '0')[k] != Instance(x, '1')[k];
    DifferentPathsAreApart(Instance(x, '0'), Instance(x, '1'));
    DifferentPathsAreApart(Instance(x, '1'), Instance(x, '0'));
  }

  lemma TwoSessionsSplit(ca: Claim, cb: Claim)
    requires ca.sessionId == "a" && cb.sessionId == "b"
    ensures Own([ca, cb], "a") == [ca] && External([ca, cb], "a") == [cb]
    ensures Own([ca, cb], "b") == [cb] && External([ca, cb], "b") == [ca]
  {
    assert [ca, cb][1..] == [cb] && [cb][1..] == [];
    assert External([], "b") == [] && Own([], "a") == [];
    assert External([cb], "b") == [] + External([cb][1..], "b") == [];
    assert Own([cb], "a") == [] && External([cb], "a") == [cb] && Own([cb], "b") == [cb];
  }

  /** A path with a wildcard is not protected: in a coordinated claim set, with honest evidence,
      two sessions are both authorized for an exclusive operation on it. */
  lemma WildcardPathsAreNotExclusive(x: string)
    requires IsCanonical(x) && !WildcardFree(x)
    ensures Coordinated(TwoSessions(x).claims) && Honest(NoFacts())
    ensures AllowedOn(TwoSessions(x), "commit", "a", [x], NoFacts(), ExclusiveWrite)
    ensures AllowedOn(TwoSessions(x), "commit", "b", [x], NoFacts(), ExclusiveWrite)
  {
    var s := TwoSessions(x);
    var ca, cb := s.claims[0], s.claims[1];
    InstanceIsCanonical(x, '0');
    InstanceIsCanonical(x, '1');
    InstancesAreApart(x);
    assert s.claims == [ca, cb];
    assert Coordinated(s.claims) by { TwoApartAreCoordinated(ca, cb); }
    assert FindSession(s.sessions, "a").Some? && FindSession(s.sessions, "a").value.state == "active";
    assert FindSession(s.sessions[1..], "b") == Some(s.sessions[1]);
    TwoSessionsSplit(ca, cb);
    assert AllowedOn(s, "commit", "a", [x], NoFacts(), ExclusiveWrite) by { AllowedWithOneClaim(s, "a", x, ca, cb); }
    assert AllowedOn(s, "commit", "b", [x], NoFacts(), ExclusiveWrite) by { AllowedWithOneClaim(s, "b", x, cb, ca); }
  }

  /** One session asking for an operation, with the evidence it is judged by. */
  datatype Demand = Demand(operation: string, sessionId: string, resources: seq<string>, facts: FactSource)

  ghost predicate Obtains(s: Snapshot, d: Demand, access: Mode) {
    AllowedOn(s, d.operation, d.sessionId, d.resources, d.facts, access)
  }

  /** Two sessions authorized on `x` in one snapshot by honest evidence, one of them exclusively. */
  ghost predicate Collide(s: Snapshot, x: string, a: Demand, b: Demand, access: Mode) {
    && a.sessionId != b.sessionId && x in a.resources && x in b.resources && Honest(a.facts) && Honest(b.facts)
    && Obtains(s, a, ExclusiveWrite) && Obtains(s, b, access)
  }

  /** On the path, no two sessions can ever collide, whatever the honest evidence. */
  ghost predicate ExclusionHolds(x: string) {
    forall s: Snapshot, a: Demand, b: Demand, access: Mode :: !Collide(s, x, a, b, access)
  }

  lemma LiteralPathsAreExclusive(x: string)
    requires WildcardFree(x)
    ensures ExclusionHolds(x)
  {
    forall s: Snapshot, a: Demand, b: Demand, access: Mode ensures !Collide(s, x, a, b, access) {
      if Collide(s, x, a, b, access) {
        ExclusiveExcludes(s, x, a.operation, a.sessionId, a.resources, a.facts,
                          b.operation, b.sessionId, b.resources, b.facts, access);
      }
    }
  }

  lemma OneCollisionIsEnough(s: Snapshot, x: string, a: Demand, b: Demand, access: Mode)
    requires Collide(s, x, a, b, access)
    ensures !ExclusionHolds(x)
  {
  }

  lemma Collision(x: string, a: Demand, b: Demand)
    requires IsCanonical(x) && !WildcardFree(x)
    requires a == Demand("commit", "a", [x], NoFacts()) && b == Demand("commit", "b", [x], NoFacts())
    ensures Collide(TwoSessions(x), x, a, b, ExclusiveWrite)
  {
    WildcardPathsAreNotExclusive(x);
    assert [x][0] == x;
  }

  lemma WildcardPathsAreShared(x: string)
    requires IsCanonical(x) && !WildcardFree(x)
    ensures !ExclusionHolds(x)
  {
    var a, b := Demand("commit", "a", [x], NoFacts()), Demand("commit", "b", [x], NoFacts());
    Collision(x, a, b);
    OneCollisionIsEnough(TwoSessions(x), x, a, b, ExclusiveWrite);
  }

  /** Exclusion holds on a canonical path exactly when it has no wildcard. */
  lemma ExclusionIffWildcardFree(x: string)
    requires IsCanonical(x)
    ensures ExclusionHolds(x) <==> WildcardFree(x)
  {
    if WildcardFree(x) {
      LiteralPathsAreExclusive(x);
    } else {
      WildcardPathsAreShared(x);
    }
  }
}
