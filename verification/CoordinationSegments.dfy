/** `segmentPatternsOverlap` of the coordination engine: the second, independently
    written search over the product of two segment patterns, without a flag. */
module CoordinationSegments {
  import opened GlobLanguage
  import opened Worklist
  import opened Samples

  /** What the search decides: the empty string counts as a common one. */
  ghost predicate StringsMeet(l: string, r: string) {
    exists s :: SegMatch(l, s) && SegMatch(r, s)
  }

  /** On non-empty patterns the empty string never stands alone, so the question is the same. */
  lemma StringsMeetIffOverlap(l: string, r: string)
    requires l != "" && r != ""
    ensures StringsMeet(l, r) <==> SegmentsOverlap(l, r)
  {
    if SegMatch(l, "") && SegMatch(r, "") {
      EmptyMatchGrows(l);
      EmptyMatchGrows(r);
      assert SegMatch(l, "a") && SegMatch(r, "a");
    }
  }

  predicate InRange(l: string, r: string, v: Cell) {
    v.i <= |l| && v.j <= |r|
  }

  function Succ(l: string, r: string, v: Cell): seq<Cell> {
    if !InRange(l, r, v) then [] else
    var leftStar := v.i < |l| && l[v.i] == '*';
    var rightStar := v.j < |r| && r[v.j] == '*';
    (if leftStar then [Cell(v.i + 1, v.j)] else []) +
    (if leftStar && v.j < |r| then [Cell(v.i, v.j + 1)] else []) +
    (if rightStar then [Cell(v.i, v.j + 1)] else []) +
    (if rightStar && v.i < |l| then [Cell(v.i + 1, v.j)] else []) +
    (if v.i < |l| && v.j < |r| && !leftStar && !rightStar && CharsMeet(l[v.i], r[v.j])
     then [Cell(v.i + 1, v.j + 1)] else [])
  }

  ghost predicate Meets(l: string, r: string, v: Cell, s: string)
    requires InRange(l, r, v)
  {
    SegMatch(l[v.i..], s) && SegMatch(r[v.j..], s)
  }

  ghost predicate Open(l: string, r: string, v: Cell) {
    InRange(l, r, v) && exists s :: Meets(l, r, v, s)
  }

  lemma SuccSound(l: string, r: string, v: Cell, t: Cell)
    requires '/' !in l && '/' !in r
    requires t in Succ(l, r, v) && Open(l, r, t)
    ensures Open(l, r, v)
  {
    var s :| Meets(l, r, t, s);
    if t == Cell(v.i + 1, v.j) && l[v.i] == '*' {
      SkipStar(l, v.i, s);
      assert Meets(l, r, v, s);
    } else if t == Cell(v.i, v.j + 1) && r[v.j] == '*' {
      SkipStar(r, v.j, s);
      assert Meets(l, r, v, s);
    } else {
      var c := CommonChar(l[v.i], r[v.j]);
      assert l[v.i] in l && r[v.j] in r;
      Prepend(l, v.i, t.i, c, s);
      Prepend(r, v.j, t.j, c, s);
      assert Meets(l, r, v, [c] + s);
    }
  }

  lemma {:induction false} NothingMissed(l: string, r: string, visited: set<Cell>, v: Cell, s: string)
    requires Explored(u => Succ(l, r, u), visited, [])
    requires Cell(|l|, |r|) !in visited
    requires v in visited && InRange(l, r, v)
    ensures !Meets(l, r, v, s)
    decreases |s|, |l| - v.i + |r| - v.j
  {
    if Meets(l, r, v, s) {
      var succ := u => Succ(l, r, u);
      assert forall t :: t in succ(v) ==> t in visited;
      assert v.i < |l| ==> l[v.i..][1..] == l[v.i + 1..];
      assert v.j < |r| ==> r[v.j..][1..] == r[v.j + 1..];
      var leftStar := v.i < |l| && l[v.i] == '*';
      var rightStar := v.j < |r| && r[v.j] == '*';
      if leftStar && SegMatch(l[v.i + 1..], s) {
        assert Cell(v.i + 1, v.j) in succ(v);
        NothingMissed(l, r, visited, Cell(v.i + 1, v.j), s);
      } else if rightStar && SegMatch(r[v.j + 1..], s) {
        assert Cell(v.i, v.j + 1) in succ(v);
        NothingMissed(l, r, visited, Cell(v.i, v.j + 1), s);
      } else if leftStar && rightStar {
        NothingMissed(l, r, visited, v, s[1..]);
      } else if s != "" {
        var t := Cell(if leftStar then v.i else v.i + 1, if rightStar then v.j else v.j + 1);
        assert t in succ(v);
        NothingMissed(l, r, visited, t, s[1..]);
      }
    }
  }

  const START := Cell(0, 0)

  ghost predicate Searching(l: string, r: string, visited: set<Cell>, queue: seq<Cell>) {
    && Explored(u => Succ(l, r, u), visited, queue)
    && AllGood((u: Cell) => InRange(l, r, u) && (Open(l, r, u) ==> Open(l, r, START)), visited, queue)
    && (START in visited || START in queue)
    && Cell(|l|, |r|) !in visited
  }

  lemma SearchSkip(l: string, r: string, visited: set<Cell>, queue: seq<Cell>)
    requires Searching(l, r, visited, queue) && |queue| > 0 && queue[0] in visited
    ensures Searching(l, r, visited, queue[1..])
  {
    var good := (u: Cell) => InRange(l, r, u) && (Open(l, r, u) ==> Open(l, r, START));
    SkipVisited(u => Succ(l, r, u), good, visited, queue);
    assert queue == [queue[0]] + queue[1..];
  }

  lemma SearchExpand(l: string, r: string, visited: set<Cell>, queue: seq<Cell>)
    requires '/' !in l && '/' !in r
    requires Searching(l, r, visited, queue) && |queue| > 0 && queue[0] != Cell(|l|, |r|)
    ensures Searching(l, r, visited + {queue[0]}, queue[1..] + Succ(l, r, queue[0]))
  {
    var succ := u => Succ(l, r, u);
    var good := (u: Cell) => InRange(l, r, u) && (Open(l, r, u) ==> Open(l, r, START));
    forall t | t in succ(queue[0]) ensures good(t) {
      if Open(l, r, t) { SuccSound(l, r, queue[0], t); }
    }
    Expand(succ, good, visited, queue);
    assert queue == [queue[0]] + queue[1..];
  }

  lemma SearchBound(l: string, r: string, visited: set<Cell>, queue: seq<Cell>)
    requires Searching(l, r, visited, queue)
    ensures |visited| <= (|l| + 1) * (|r| + 1)
  {
    var good := (u: Cell) => InRange(l, r, u) && (Open(l, r, u) ==> Open(l, r, START));
    assert forall u :: u in visited ==> good(u);
    CellBoxBound(visited, |l|, |r|);
  }

  lemma SearchFound(l: string, r: string, visited: set<Cell>, queue: seq<Cell>)
    requires Searching(l, r, visited, queue) && |queue| > 0 && queue[0] == Cell(|l|, |r|)
    ensures StringsMeet(l, r)
    ensures |visited + {queue[0]}| <= (|l| + 1) * (|r| + 1)
  {
    var good := (u: Cell) => InRange(l, r, u) && (Open(l, r, u) ==> Open(l, r, START));
    assert good(queue[0]);
    assert forall u :: u in visited ==> good(u);
    CellBoxBound(visited + {queue[0]}, |l|, |r|);
    assert Meets(l, r, queue[0], "");
    var s :| Meets(l, r, START, s);
    assert l[0..] == l && r[0..] == r;
  }

  lemma SearchExhausted(l: string, r: string, visited: set<Cell>)
    requires Searching(l, r, visited, [])
    ensures !StringsMeet(l, r)
  {
    if s :| SegMatch(l, s) && SegMatch(r, s) {
      assert l[0..] == l && r[0..] == r;
      NothingMissed(l, r, visited, START, s);
    }
  }

  /** The pushes of one round, in the order the search makes them. */
  method PushSuccessors(left: string, right: string, node: Cell, pending: seq<Cell>) returns (queue: seq<Cell>)
    requires InRange(left, right, node)
    ensures queue == pending + Succ(left, right, node)
  {
    queue := pending;
    var leftStar := node.i < |left| && left[node.i] == '*';
    var rightStar := node.j < |right| && right[node.j] == '*';
    if leftStar {
      queue := queue + [Cell(node.i + 1, node.j)];
      if node.j < |right| { queue := queue + [Cell(node.i, node.j + 1)]; }
    }
    if rightStar {
      queue := queue + [Cell(node.i, node.j + 1)];
      if node.i < |left| { queue := queue + [Cell(node.i + 1, node.j)]; }
    }
    if node.i < |left| && node.j < |right| && !leftStar && !rightStar {
      if CharsMeet(left[node.i], right[node.j]) {
        queue := queue + [Cell(node.i + 1, node.j + 1)];
      }
    }
  }

  /** The flag-free search: true exactly when some string, perhaps empty, matches both. */
  method SegmentPatternsOverlap(left: string, right: string) returns (overlap: bool, ghost visits: nat)
    requires '/' !in left && '/' !in right
    ensures overlap == StringsMeet(left, right)
    ensures visits <= (|left| + 1) * (|right| + 1)
  {
    var queue := [START];
    var visited: set<Cell> := {};
    while |queue| > 0
      invariant Searching(left, right, visited, queue)
      decreases (|left| + 1) * (|right| + 1) - |visited|, |queue|
    {
      SearchBound(left, right, visited, queue);
      var node := queue[0];
      if node in visited {
        SearchSkip(left, right, visited, queue);
        queue := queue[1..];
        continue;
      }
      if node.i == |left| && node.j == |right| {
        SearchFound(left, right, visited, queue);
        return true, |visited + {node}|;
      }
      SearchExpand(left, right, visited, queue);
      visited := visited + {node};
      queue := PushSuccessors(left, right, node, queue[1..]);
      SearchBound(left, right, visited, queue);
    }
    SearchExhausted(left, right, visited);
    SearchBound(left, right, visited, queue);
    return false, |visited|;
  }
}
