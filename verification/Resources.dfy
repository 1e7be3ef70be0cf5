/** Canonical resources: repository-relative slash-separated patterns, their validation,
    and what it means for two of them to select a common path. */
module Resources {
  import opened GlobLanguage
  import opened Samples
  import opened Strings
  import opened Wrappers

  /** The registry error codes that the modelled operations raise. */
  datatype ErrorCode =
    | InvalidClaim | InvalidClaimResource | ClaimPathTraversal | ClaimAmbiguousPath | UnsupportedClaimGlob
    | ClaimRepositoryMismatch | ClaimSessionMismatch | DuplicateClaim | ContradictoryClaim
    | ResourceClaimConflict | SessionNotFound | SessionNotActive | RepositoryMismatch
    | InvalidOperation | OperationRejected | StaleClaimSet

  function Segments(resource: string): (p: seq<string>)
    ensures IsSplit(p)
  {
    Split(resource, '/')
  }

  predicate IsLetter(c: char) {
    'A' <= c <= 'Z' || 'a' <= c <= 'z'
  }

  function ValidateResourceString(resource: string): Option<ErrorCode> {
    if resource == "" then Some(InvalidClaimResource)
    else if '\0' in resource then Some(InvalidClaimResource)
    else if '\\' in resource then Some(ClaimAmbiguousPath)
    else if resource[0] == '/' || (|resource| >= 2 && IsLetter(resource[0]) && resource[1] == ':') then
      Some(ClaimPathTraversal)
    else None
  }

  predicate HasBrackets(segment: string) {
    exists c :: c in segment && c in "[]{}()"
  }

  predicate HasDoubleStar(segment: string) {
    exists k :: 0 <= k < |segment| - 1 && segment[k] == '*' && segment[k + 1] == '*'
  }

  function CanonicalResourceSyntax(resource: string): Result<string, ErrorCode> {
    var segments := Segments(resource);
    if exists s :: s in segments && s == ".." then Err(ClaimPathTraversal)
    else if exists s :: s in segments && (s == "" || s == ".") then Err(ClaimAmbiguousPath)
    else if exists s :: s in segments && HasBrackets(s) then Err(UnsupportedClaimGlob)
    else if exists s :: s in segments && HasDoubleStar(s) && s != "**" then Err(UnsupportedClaimGlob)
    else Ok(Join(segments, '/'))
  }

  /** Canonicalization as the syntax determines it; a worktree can only refuse more. */
  function CanonicalizeResource(resource: string): Result<string, ErrorCode> {
    match ValidateResourceString(resource)
    case Some(code) => Err(code)
    case None => CanonicalResourceSyntax(resource)
  }

  predicate IsCanonical(resource: string) {
    CanonicalizeResource(resource) == Ok(resource)
  }

  /** Canonicalization never rewrites: it accepts a resource as it is or refuses it. What it
      accepts has only non-empty segments, which is what the overlap search relies on. */
  lemma CanonicalizationIsIdentity(resource: string)
    requires CanonicalizeResource(resource).Ok?
    ensures CanonicalizeResource(resource) == Ok(resource)
    ensures IsPattern(Segments(resource)) && '\0' !in resource
  {
    JoinSplit(resource, '/');
    var p := Segments(resource);
    forall k | 0 <= k < |p| ensures IsName(p[k]) {
      assert p[k] in p;
    }
  }

  /** Two resources select a common concrete path. */
  ghost predicate ResourcesOverlap(l: string, r: string) {
    PathsOverlap(Segments(l), Segments(r))
  }

  lemma OverlapIsSymmetric(l: string, r: string)
    ensures ResourcesOverlap(l, r) <==> ResourcesOverlap(r, l)
  {
  }

  /** Every canonical resource selects something, so it overlaps itself. */
  lemma OverlapIsReflexive(r: string)
    requires IsCanonical(r)
    ensures ResourcesOverlap(r, r)
  {
    CanonicalizationIsIdentity(r);
    var p := Segments(r);
    var w := SamplePath(p);
    if w == [] {
      EmptyPathGrows(p);
      assert IsConcrete(["a"]) && PathMatch(p, ["a"]);
    } else {
      assert IsConcrete(w) && PathMatch(p, w);
    }
  }

  predicate WildcardFree(s: string) {
    '*' !in s && '?' !in s
  }

  lemma {:induction false} LiteralSegment(p: string, s: string)
    requires WildcardFree(p)
    ensures SegMatch(p, s) <==> s == p
    decreases |p|
  {
    if p != "" {
      assert p[0] in p;
      assert forall c :: c in p[1..] ==> c in p;
      assert p == [p[0]] + p[1..];
      if s != "" {
        assert s == [s[0]] + s[1..];
        LiteralSegment(p[1..], s[1..]);
      }
    }
  }

  lemma {:induction false} LiteralPath(p: seq<string>, w: seq<string>)
    requires forall k :: 0 <= k < |p| ==> WildcardFree(p[k])
    ensures PathMatch(p, w) <==> w == p
    decreases |p|
  {
    if p != [] {
      assert p[0] != "**" by { assert '*' in "**"; }
      assert p == [p[0]] + p[1..];
      if w != [] {
        assert w == [w[0]] + w[1..];
        LiteralSegment(p[0], w[0]);
        LiteralPath(p[1..], w[1..]);
      }
    }
  }

  lemma {:induction false} PartsAreDrawnFrom(s: string, sep: char, k: nat, c: char)
    requires k < |Split(s, sep)| && c in Split(s, sep)[k]
    ensures c in s
  {
    if s != "" {
      var rest := Split(s[1..], sep);
      if s[0] == sep {
        if k > 0 { PartsAreDrawnFrom(s[1..], sep, k - 1, c); }
      } else if k > 0 || c in rest[0] {
        PartsAreDrawnFrom(s[1..], sep, k, c);
      }
    }
  }

  lemma LiteralParts(s: string)
    requires WildcardFree(s)
    ensures forall k :: 0 <= k < |Segments(s)| ==> WildcardFree(Segments(s)[k])
  {
    forall k | 0 <= k < |Segments(s)| ensures WildcardFree(Segments(s)[k]) {
      if '*' in Segments(s)[k] { PartsAreDrawnFrom(s, '/', k, '*'); }
      if '?' in Segments(s)[k] { PartsAreDrawnFrom(s, '/', k, '?'); }
    }
  }

  /** A path without wildcards overlaps a pattern exactly when the pattern matches it. */
  lemma ConcreteOverlap(pattern: string, path: string)
    requires IsCanonical(path) && WildcardFree(path)
    ensures ResourcesOverlap(pattern, path) <==> PathMatch(Segments(pattern), Segments(path))
  {
    CanonicalizationIsIdentity(path);
    var p := Segments(path);
    LiteralParts(path);
    LiteralPath(p, p);
    forall w ensures PathMatch(p, w) ==> w == p {
      LiteralPath(p, w);
    }
    assert IsConcrete(p);
  }
}
