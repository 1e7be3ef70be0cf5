/** The NUL-joined text behind claim identifiers names exactly one claim. */
module ClaimIdentities {
  import opened ResourceClaims
  import opened Strings
  import opened Wrappers

  /** Three texts free of NUL, joined by NUL, followed by anything behind another NUL. */
  lemma ThreeParts(a: string, b: string, c: string, rest: string)
    requires '\0' !in a && '\0' !in b && '\0' !in c
    ensures Split(a + "\0" + b + "\0" + c, '\0') == [a, b, c]
    ensures Split(a + "\0" + b + "\0" + c + ("\0" + rest), '\0') == [a, b, c] + Split(rest, '\0')
  {
    SplitWhole(a, '\0');
    SplitWhole(b, '\0');
    SplitWhole(c, '\0');
    var ab, abc := a + ['\0'] + b, a + ['\0'] + b + ['\0'] + c;
    SplitConcat(a, b, '\0');
    SplitConcat(ab, c, '\0');
    SplitConcat(abc, rest, '\0');
    assert a + "\0" + b + "\0" + c + ("\0" + rest) == abc + ['\0'] + rest;
  }

  lemma IdentityParts(sessionId: string, resource: string, mode: Mode, sharing: Option<Sharing>)
    requires '\0' !in sessionId && '\0' !in resource
    ensures Split(ClaimIdentity(sessionId, resource, mode, sharing), '\0')
      == [sessionId, mode.Name(), resource] + Tail(sharing)
  {
    var front := sessionId + "\0" + mode.Name() + "\0" + resource;
    match sharing
    case None =>
      ThreeParts(sessionId, mode.Name(), resource, "");
      assert ClaimIdentity(sessionId, resource, mode, sharing) == front;
    case Some(s) =>
      var rest := s.kind + ['\0'] + s.groupId;
      assert "\0" + s.kind + "\0" + s.groupId == "\0" + rest;
      assert ClaimIdentity(sessionId, resource, mode, sharing) == front + ("\0" + rest);
      ThreeParts(sessionId, mode.Name(), resource, rest);
      SplitConcat(s.kind, s.groupId, '\0');
  }

  /** Session, mode, resource and sharing can all be read back, with or without sharing, for
      sessions and resources free of NUL and the one sharing kind there is. A group identifier
      may contain anything. */
  lemma ClaimIdentityIsInjective(
    s: string, r: string, m: Mode, g: Option<Sharing>, s': string, r': string, m': Mode, g': Option<Sharing>)
    requires '\0' !in s && '\0' !in r && '\0' !in s' && '\0' !in r'
    requires (g.Some? ==> g.value.kind == ISOLATED_WORKTREE) && (g'.Some? ==> g'.value.kind == ISOLATED_WORKTREE)
    requires CanonicalClaimId(s, r, m, g) == CanonicalClaimId(s', r', m', g')
    ensures s == s' && r == r' && m == m' && g == g'
  {
    var a, b := ClaimIdentity(s, r, m, g), ClaimIdentity(s', r', m', g');
    assert a == CanonicalClaimId(s, r, m, g)[6..] && b == CanonicalClaimId(s', r', m', g')[6..];
    IdentityParts(s, r, m, g);
    IdentityParts(s', r', m', g');
    assert Split(a, '\0') == Split(b, '\0');
    PartsAgree([s, m.Name(), r], Tail(g), [s', m'.Name(), r'], Tail(g'));
    TailIsInjective(g, g');
  }

  /** What sharing adds after the first three parts. */
  function Tail(sharing: Option<Sharing>): seq<string> {
    match sharing case None => [] case Some(s) => Split(s.kind, '\0') + Split(s.groupId, '\0')
  }

  lemma PartsAgree(p: seq<string>, x: seq<string>, q: seq<string>, y: seq<string>)
    requires |p| == |q| == 3 && p + x == q + y
    ensures p[0] == q[0] && p[1] == q[1] && p[2] == q[2] && x == y
  {
    assert p == (p + x)[..3] && q == (q + y)[..3];
    assert x == (p + x)[3..] && y == (q + y)[3..];
  }

  lemma TailIsInjective(g: Option<Sharing>, g': Option<Sharing>)
    requires (g.Some? ==> g.value.kind == ISOLATED_WORKTREE) && (g'.Some? ==> g'.value.kind == ISOLATED_WORKTREE)
    requires Tail(g) == Tail(g')
    ensures g == g'
  {
    SplitWhole(ISOLATED_WORKTREE, '\0');
    if g.Some? && g'.Some? {
      assert Tail(g)[1..] == Split(g.value.groupId, '\0') && Tail(g')[1..] == Split(g'.value.groupId, '\0');
      SplitIsInjective(g.value.groupId, g'.value.groupId, '\0');
    }
  }
}
