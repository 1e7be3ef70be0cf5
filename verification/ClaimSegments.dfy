/** `segmentPatternsOverlap` of the claim engine: a worklist search over the product
    of two segment patterns that tracks whether any character was consumed. */
module ClaimSegments {
  import opened GlobLanguage
  import opened Samples
  import opened Worklist

  predicate InRange(l: string, r: string, v: Node) {
    v.i <= |l| && v.j <= |r|
  }

  function Succ(l: string, r: string, v: Node): seq<Node> {
    if !InRange(l, r, v) then [] else
    var leftStar := v.i < |l| && l[v.i] == '*';
    var rightStar := v.j < |r| && r[v.j] == '*';
    (if leftStar then [Node(v.i + 1, v.j, v.consumed)] else []) +
    (if rightStar then [Node(v.i, v.j + 1, v.consumed)] else []) +
    (if leftStar && v.j < |r| then [Node(v.i, v.j + 1, true)] else []) +
    (if rightStar && v.i < |l| then [Node(v.i + 1, v.j, true)] else []) +
    (if v.i < |l| && v.j < |r| && !leftStar && !rightStar && CharsMeet(l[v.i], r[v.j])
     then [Node(v.i + 1, v.j + 1, true)] else [])
  }

  ghost predicate Meets(l: string, r: string, v: Node, s: string)
    requires InRange(l, r, v)
  {
    SegMatch(l[v.i..], s) && SegMatch(r[v.j..], s) && (v.consumed || s != "")
  }

  /** The two suffixes at `v` have a common name, non-empty unless something was consumed. */
  ghost predicate Open(l: string, r: string, v: Node) {
    InRange(l, r, v) && exists s :: Meets(l, r, v, s)
  }

  /** Whatever is open after a step was open before it. */
  lemma SuccSound(l: string, r: string, v: Node, t: Node)
    requires '/' !in l && '/' !in r
    requires t in Succ(l, r, v) && Open(l, r, t)
    ensures Open(l, r, v)
  {
    var s :| Meets(l, r, t, s);
    if t.i == v.i + 1 && t.j == v.j && l[v.i] == '*' && t.consumed == v.consumed {
      SkipStar(l, v.i, s);
      assert Meets(l, r, v, s);
    } else if t.i == v.i && r[v.j] == '*' && t.consumed == v.consumed {
      SkipStar(r, v.j, s);
      assert Meets(l, r, v, s);
    } else {
      assert v.i < |l| && v.j < |r|;
      var c := CommonChar(l[v.i], r[v.j]);
      assert l[v.i] in l && r[v.j] in r;
      Prepend(l, v.i, t.i, c, s);
      Prepend(r, v.j, t.j, c, s);
      assert Meets(l, r, v, [c] + s);
    }
  }

  /** A closed visited set that lacks the accepting node holds no open node. */
  lemma {:induction false} NothingMissed(l: string, r: string, visited: set<Node>, v: Node, s: string)
    requires Explored(u => Succ(l, r, u), visited, [])
    requires Node(|l|, |r|, true) !in visited
    requires v in visited && InRange(l, r, v)
    ensures !Meets(l, r, v, s)
    decreases |s|, |l| - v.i + |r| - v.j
  {
    if Meets(l, r, v, s) {
      var succ := u => Succ(l, r, u);
      assert forall t :: t in succ(v) ==> t in visited;
      assert v.i < |l| ==> l[v.i..][1..] == l[v.i + 1..];
      assert v.j < |r| ==> r[v.j..][1..] == r[v.j + 1..];
      var leftStar := v.i < |l| && l[v.i] == '*';
      var rightStar := v.j < |r| && r[v.j] == '*';
      if leftStar && SegMatch(l[v.i + 1..], s) {
        assert Node(v.i + 1, v.j, v.consumed) in succ(v);
        NothingMissed(l, r, visited, Node(v.i + 1, v.j, v.consumed), s);
      } else if rightStar && SegMatch(r[v.j + 1..], s) {
        assert Node(v.i, v.j + 1, v.consumed) in succ(v);
        NothingMissed(l, r, visited, Node(v.i, v.j + 1, v.consumed), s);
      } else if leftStar && rightStar {
        assert SegMatch(l[v.i..], s[1..]) && SegMatch(r[v.j..], s[1..]);
        if v.consumed || |s| > 1 {
          NothingMissed(l, r, visited, v, s[1..]);
        } else {
          // one character, absorbed by both: step over the right star while consuming it
          assert s[1..] == "" && SegMatch(r[v.j + 1..], "");
          assert Node(v.i, v.j + 1, true) in succ(v);
          NothingMissed(l, r, visited, Node(v.i, v.j + 1, true), s[1..]);
        }
      } else if s != "" {
        var t := Node(if leftStar then v.i else v.i + 1, if rightStar then v.j else v.j + 1, true);
        assert t in succ(v);
        NothingMissed(l, r, visited, t, s[1..]);
      }
    }
  }

  /** The pushes of one round, in the order the search makes them. */
  method PushSuccessors(left: string, right: string, node: Node, pending: seq<Node>) returns (queue: seq<Node>)
    requires InRange(left, right, node)
    ensures queue == pending + Succ(left, right, node)
  {
    queue := pending;
    var leftStar := node.i < |left| && left[node.i] == '*';
    var rightStar := node.j < |right| && right[node.j] == '*';
    if leftStar { queue := queue + [Node(node.i + 1, node.j, node.consumed)]; }
    if rightStar { queue := queue + [Node(node.i, node.j + 1, node.consumed)]; }
    if leftStar && node.j < |right| { queue := queue + [Node(node.i, node.j + 1, true)]; }
    if rightStar && node.i < |left| { queue := queue + [Node(node.i + 1, node.j, true)]; }
    if node.i < |left| && node.j < |right| && !leftStar && !rightStar {
      if CharsMeet(left[node.i], right[node.j]) {
        queue := queue + [Node(node.i + 1, node.j + 1, true)];
      }
    }
  }

  const START := Node(0, 0, false)

  /** What holds each time round: the search is closed up to the queue, and nothing it met
      is open unless the start is. */
  ghost predicate Searching(l: string, r: string, visited: set<Node>, queue: seq<Node>) {
    && Explored(u => Succ(l, r, u), visited, queue)
    && AllGood((u: Node) => InRange(l, r, u) && (Open(l, r, u) ==> Open(l, r, START)), visited, queue)
    && (START in visited || START in queue)
    && Node(|l|, |r|, true) !in visited
  }

  lemma SearchSkip(l: string, r: string, visited: set<Node>, queue: seq<Node>)
    requires Searching(l, r, visited, queue) && |queue| > 0 && queue[0] in visited
    ensures Searching(l, r, visited, queue[1..])
  {
    var good := (u: Node) => InRange(l, r, u) && (Open(l, r, u) ==> Open(l, r, START));
    SkipVisited(u => Succ(l, r, u), good, visited, queue);
    assert queue == [queue[0]] + queue[1..];
  }

  lemma SearchExpand(l: string, r: string, visited: set<Node>, queue: seq<Node>)
    requires '/' !in l && '/' !in r
    requires Searching(l, r, visited, queue) && |queue| > 0 && queue[0] != Node(|l|, |r|, true)
    ensures Searching(l, r, visited + {queue[0]}, queue[1..] + Succ(l, r, queue[0]))
  {
    var succ := u => Succ(l, r, u);
    var good := (u: Node) => InRange(l, r, u) && (Open(l, r, u) ==> Open(l, r, START));
    forall t | t in succ(queue[0]) ensures good(t) {
      if Open(l, r, t) { SuccSound(l, r, queue[0], t); }
    }
    Expand(succ, good, visited, queue);
    assert queue == [queue[0]] + queue[1..];
  }

  lemma SearchBound(l: string, r: string, visited: set<Node>, queue: seq<Node>)
    requires Searching(l, r, visited, queue)
    ensures |visited| <= 2 * (|l| + 1) * (|r| + 1)
  {
    var good := (u: Node) => InRange(l, r, u) && (Open(l, r, u) ==> Open(l, r, START));
    assert forall u :: u in visited ==> good(u);
    BoxBound(visited, |l|, |r|);
  }

  lemma SearchFound(l: string, r: string, visited: set<Node>, queue: seq<Node>)
    requires Searching(l, r, visited, queue) && |queue| > 0 && queue[0] == Node(|l|, |r|, true)
    ensures SegmentsOverlap(l, r)
    ensures |visited + {queue[0]}| <= 2 * (|l| + 1) * (|r| + 1)
  {
    var good := (u: Node) => InRange(l, r, u) && (Open(l, r, u) ==> Open(l, r, START));
    assert good(queue[0]);
    assert forall u :: u in visited ==> good(u);
    BoxBound(visited + {queue[0]}, |l|, |r|);
    assert Meets(l, r, queue[0], "");
    var s :| Meets(l, r, START, s);
    assert l[0..] == l && r[0..] == r;
  }

  lemma SearchExhausted(l: string, r: string, visited: set<Node>)
    requires Searching(l, r, visited, [])
    ensures !SegmentsOverlap(l, r)
  {
    if s :| s != "" && SegMatch(l, s) && SegMatch(r, s) {
      assert l[0..] == l && r[0..] == r;
      NothingMissed(l, r, visited, START, s);
    }
  }

  /** The flag-tracking search: true exactly when the two patterns share a non-empty name. */
  method SegmentPatternsOverlap(left: string, right: string) returns (overlap: bool, ghost visits: nat)
    requires '/' !in left && '/' !in right
    ensures overlap == SegmentsOverlap(left, right)
    ensures visits <= 2 * (|left| + 1) * (|right| + 1)
  {
    var queue := [START];
    var visited: set<Node> := {};
    while |queue| > 0
      invariant Searching(left, right, visited, queue)
      decreases 2 * (|left| + 1) * (|right| + 1) - |visited|, |queue|
    {
      SearchBound(left, right, visited, queue);
      var node := queue[0];
      if node in visited {
        SearchSkip(left, right, visited, queue);
        queue := queue[1..];
        continue;
      }
      if node.i == |left| && node.j == |right| && node.consumed {
        SearchFound(left, right, visited, queue);
        return true, |visited + {node}|;
      }
      SearchExpand(left, right, visited, queue);
      visited := visited + {node};
      queue := PushSuccessors(left, right, node, queue[1..]);
      SearchBound(left, right, visited, queue);
    }
    SearchExhausted(left, right, visited);
    SearchBound(left, right, visited, queue);
    return false, |visited|;
  }
}
