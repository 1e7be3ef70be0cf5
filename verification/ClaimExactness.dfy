/** For which patterns the claim search answers exactly, whatever text stands on the other side. */
module ClaimExactness {
  import opened ClaimPaths
  import opened GlobLanguage
  import opened Samples
  import opened Worklist

  ghost predicate Agrees(l: seq<string>, r: seq<string>) {
    Accepts(l, r) <==> PathsOverlap(l, r)
  }

  // ----- The search is symmetric

  function Mirrored(v: Node): Node {
    Node(v.j, v.i, v.consumed)
  }

  lemma SegmentsOverlapEitherWay(a: string, b: string)
    ensures SegmentsOverlap(a, b) <==> SegmentsOverlap(b, a)
  {
  }

  lemma MirroredMove(l: seq<string>, r: seq<string>, v: Node, t: Node)
    requires t in Succ(l, r, v)
    ensures Mirrored(t) in Succ(r, l, Mirrored(v))
  {
    if v.i < |l| && v.j < |r| { SegmentsOverlapEitherWay(l[v.i], r[v.j]); }
  }

  lemma MirroredAccepts(l: seq<string>, r: seq<string>)
    requires Accepts(l, r)
    ensures Accepts(r, l)
  {
    var run :| IsRun(l, r, run) && run[|run| - 1] == Node(|l|, |r|, true);
    var mirror := seq(|run|, k requires 0 <= k < |run| => Mirrored(run[k]));
    forall k | 0 <= k < |mirror| - 1 ensures mirror[k + 1] in Succ(r, l, mirror[k]) {
      MirroredMove(l, r, run[k], run[k + 1]);
    }
    assert IsRun(r, l, mirror);
  }

  /** On any two texts the search gives the same answer either way round. */
  lemma AcceptsIsSymmetric(l: seq<string>, r: seq<string>)
    ensures Accepts(l, r) <==> Accepts(r, l)
  {
    if Accepts(l, r) { MirroredAccepts(l, r); }
    if Accepts(r, l) { MirroredAccepts(r, l); }
  }

  lemma AgreesEitherWay(l: seq<string>, r: seq<string>)
    ensures Agrees(l, r) <==> Agrees(r, l)
  {
    AcceptsIsSymmetric(l, r);
  }

  // ----- A pattern with an empty segment selects nothing, and `**` is accepted against anything

  lemma {:induction false} EmptySegmentSelectsNothing(p: seq<string>, k: nat, w: seq<string>)
    requires k < |p| && p[k] == "" && AllNames(w)
    ensures !PathMatch(p, w)
    decreases |p| + |w|
  {
    if k == 0 {
      assert w != [] ==> w[0] != "" && !SegMatch("", w[0]);
    } else if p[0] == "**" {
      EmptySegmentSelectsNothing(p[1..], k - 1, w);
      if w != [] { EmptySegmentSelectsNothing(p, k, w[1..]); }
    } else if w != [] {
      EmptySegmentSelectsNothing(p[1..], k - 1, w[1..]);
    }
  }

  lemma NothingInCommon(l: seq<string>, r: seq<string>, k: nat)
    requires k < |r| && r[k] == ""
    ensures !PathsOverlap(l, r)
  {
    forall w | IsConcrete(w) ensures !PathMatch(r, w) {
      EmptySegmentSelectsNothing(r, k, w);
    }
  }

  lemma {:induction false} StarsReach(r: seq<string>, j: nat)
    requires j <= |r|
    ensures Reached(["**"], r, Node(0, j, true))
  {
    var l := ["**"];
    if j == 0 {
      StartIsReached(l, r);
      ReachedGrows(l, r, START, Node(0, 0, true));
    } else {
      StarsReach(r, j - 1);
      ReachedGrows(l, r, Node(0, j - 1, true), Node(0, j, true));
    }
  }

  /** The pattern `**` is accepted against every text. */
  lemma StarsAcceptAnything(r: seq<string>)
    ensures Accepts(["**"], r)
  {
    StarsReach(r, |r|);
    ReachedGrows(["**"], r, Node(0, |r|, true), Node(1, |r|, true));
  }

  // ----- A `**` absorbs an empty segment put in its place on the other side

  lemma MeetsItself(p: string)
    requires IsName(p)
    ensures SegmentsOverlap(p, p)
  {
    var s := SampleName(p);
    assert s != "" && SegMatch(p, s);
  }

  ghost predicate OnDiagonal(l: seq<string>, r: seq<string>, i: nat, consumed: bool) {
    exists flag :: (consumed ==> flag) && Reached(l, r, Node(i, i, flag))
  }

  lemma DiagonalMove(l: seq<string>, r: seq<string>, i: nat, consumed: bool)
    requires IsPattern(r) && |l| == |r| && i < |r| && l[i] == r[i] && OnDiagonal(l, r, i, consumed)
    ensures OnDiagonal(l, r, i + 1, consumed)
  {
    var flag: bool :| (consumed ==> flag) && Reached(l, r, Node(i, i, flag));
    assert IsName(r[i]);
    MeetsItself(r[i]);
    ReachedGrows(l, r, Node(i, i, flag), Node(i + 1, i + 1, if r[i] == "**" then flag else true));
  }

  lemma {:induction false} DiagonalBefore(l: seq<string>, r: seq<string>, k: nat, i: nat)
    requires IsPattern(r) && k < |r| && l == r[k := ""] && i <= k
    ensures OnDiagonal(l, r, i, false)
  {
    if i == 0 {
      StartIsReached(l, r);
    } else {
      DiagonalBefore(l, r, k, i - 1);
      DiagonalMove(l, r, i - 1, false);
    }
  }

  lemma Absorbed(l: seq<string>, r: seq<string>, k: nat)
    requires k < |r| && r[k] == "**" && l == r[k := ""] && OnDiagonal(l, r, k, false)
    ensures OnDiagonal(l, r, k + 1, true)
  {
    var flag: bool :| Reached(l, r, Node(k, k, flag));
    ReachedGrows(l, r, Node(k, k, flag), Node(k + 1, k, true));
    ReachedGrows(l, r, Node(k + 1, k, true), Node(k + 1, k + 1, true));
  }

  lemma {:induction false} DiagonalAfter(l: seq<string>, r: seq<string>, k: nat, i: nat)
    requires IsPattern(r) && k < i <= |r| && r[k] == "**" && l == r[k := ""]
    ensures OnDiagonal(l, r, i, true)
  {
    if i == k + 1 {
      DiagonalBefore(l, r, k, k);
      Absorbed(l, r, k);
    } else {
      DiagonalAfter(l, r, k, i - 1);
      DiagonalMove(l, r, i - 1, true);
    }
  }

  lemma EmptySegmentIsAbsorbed(r: seq<string>, k: nat)
    requires IsPattern(r) && k < |r| && r[k] == "**"
    ensures Accepts(r[k := ""], r) && !PathsOverlap(r[k := ""], r)
  {
    var l := r[k := ""];
    DiagonalAfter(l, r, k, |r|);
    NothingInCommon(r, l, k);
  }

  // ----- The exact conditions

  /** The search answers exactly against every text on the left. */
  ghost predicate ExactAgainstAll(r: seq<string>) {
    forall l :: IsSplit(l) ==> Agrees(l, r)
  }

  /** The search answers exactly against every canonical resource on the left. */
  ghost predicate ExactAgainstPatterns(r: seq<string>) {
    forall l :: IsPattern(l) ==> Agrees(l, r)
  }

  lemma ExactAgrees(l: seq<string>, r: seq<string>)
    requires Exact(l, r)
    ensures Agrees(l, r)
  {
    if PathsOverlap(l, r) { OverlapIsAccepted(l, r); }
    if Accepts(l, r) { AcceptedIsOverlap(l, r); }
  }

  lemma StarsDisagree(r: seq<string>)
    requires IsSplit(r) && !IsPattern(r)
    ensures IsPattern(["**"]) && !Agrees(["**"], r)
  {
    var k :| 0 <= k < |r| && !IsName(r[k]);
    assert r[k] == "";
    StarsAcceptAnything(r);
    NothingInCommon(["**"], r, k);
  }

  lemma AbsorberDisagrees(r: seq<string>)
    requires IsPattern(r) && !StarFree(r)
    ensures !ExactAgainstAll(r)
  {
    var k :| 0 <= k < |r| && r[k] == "**";
    EmptySegmentIsAbsorbed(r, k);
    var l := r[k := ""];
    forall i | 0 <= i < |l| ensures '/' !in l[i] {
      assert IsName(r[i]);
    }
    assert IsSplit(l) && !Agrees(l, r);
  }

  /** Exact whatever stands on the other side, if and only if the pattern has neither an empty
      segment nor a `**`. */
  lemma ExactAgainstAllIff(r: seq<string>)
    requires IsSplit(r)
    ensures ExactAgainstAll(r) <==> IsPattern(r) && StarFree(r)
    ensures (forall l :: IsSplit(l) ==> Agrees(r, l)) <==> IsPattern(r) && StarFree(r)
  {
    forall l ensures Agrees(l, r) <==> Agrees(r, l) {
      AgreesEitherWay(l, r);
    }
    if !IsPattern(r) {
      StarsDisagree(r);
      assert IsSplit(["**"]);
    } else if !StarFree(r) {
      AbsorberDisagrees(r);
    } else {
      forall l | IsSplit(l) ensures Agrees(l, r) {
        ExactAgrees(l, r);
      }
    }
  }

  /** Exact against every canonical resource if and only if the text has no empty segment. */
  lemma ExactAgainstPatternsIff(r: seq<string>)
    requires IsSplit(r)
    ensures ExactAgainstPatterns(r) <==> IsPattern(r)
    ensures (forall l :: IsPattern(l) ==> Agrees(r, l)) <==> IsPattern(r)
  {
    forall l ensures Agrees(l, r) <==> Agrees(r, l) {
      AgreesEitherWay(l, r);
    }
    if IsPattern(r) {
      forall l | IsPattern(l) ensures Agrees(l, r) {
        ExactAgrees(l, r);
      }
    } else {
      StarsDisagree(r);
    }
  }
}
