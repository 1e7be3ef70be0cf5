/** `globPatternsOverlap` of the claim engine: the search over the product of two
    patterns of segments, calling the segment search where two plain segments meet. */
module ClaimPaths {
  import opened GlobLanguage
  import opened Samples
  import opened Worklist
  import ClaimSegments

  predicate InRange(l: seq<string>, r: seq<string>, v: Node) {
    v.i <= |l| && v.j <= |r|
  }

  predicate StarAt(p: seq<string>, k: nat) {
    k < |p| && p[k] == "**"
  }

  ghost function Succ(l: seq<string>, r: seq<string>, v: Node): seq<Node> {
    if !InRange(l, r, v) then [] else
    (if StarAt(l, v.i) then [Node(v.i + 1, v.j, v.consumed), Node(v.i, v.j, true)] else []) +
    (if StarAt(r, v.j) then [Node(v.i, v.j + 1, v.consumed), Node(v.i, v.j, true)] else []) +
    (if StarAt(l, v.i) && StarAt(r, v.j) then [Node(v.i + 1, v.j + 1, v.consumed)]
     else if v.i == |l| || v.j == |r| then []
     else if StarAt(r, v.j) then [Node(v.i + 1, v.j, true)]
     else if StarAt(l, v.i) then [Node(v.i, v.j + 1, true)]
     else if SegmentsOverlap(l[v.i], r[v.j]) then [Node(v.i + 1, v.j + 1, true)]
     else [])
  }

  ghost predicate Meets(l: seq<string>, r: seq<string>, v: Node, w: seq<string>)
    requires InRange(l, r, v)
  {
    AllNames(w) && PathMatch(l[v.i..], w) && PathMatch(r[v.j..], w)
  }

  /** The two suffixes at `v` match a common run of names, whatever the flag says: the flag
      is also raised on a `**` without consuming anything, so it is no evidence by itself. */
  ghost predicate Open(l: seq<string>, r: seq<string>, v: Node) {
    InRange(l, r, v) && exists w :: Meets(l, r, v, w)
  }

  lemma Extend(l: seq<string>, r: seq<string>, v: Node, t: Node, name: string, w: seq<string>)
    requires InRange(l, r, v) && InRange(l, r, t) && v.i <= t.i <= v.i + 1 && v.j <= t.j <= v.j + 1
    requires v.i < |l| && v.j < |r| && IsName(name) && Meets(l, r, t, w)
    requires StarAt(l, v.i) || (t.i == v.i + 1 && SegMatch(l[v.i], name))
    requires StarAt(r, v.j) || (t.j == v.j + 1 && SegMatch(r[v.j], name))
    ensures Meets(l, r, v, [name] + w)
  {
    PrependName(l, v.i, t.i, name, w);
    PrependName(r, v.j, t.j, name, w);
  }

  predicate StarFree(p: seq<string>) {
    forall k :: 0 <= k < |p| ==> p[k] != "**"
  }

  /** Where the search invents nothing: one pattern has no empty segment, and the other has none
      either or meets no `**` that could absorb it. */
  predicate Exact(l: seq<string>, r: seq<string>) {
    && IsSplit(l) && IsSplit(r)
    && ((IsPattern(l) && IsPattern(r)) || (IsPattern(r) && StarFree(r)) || (IsPattern(l) && StarFree(l)))
  }

  lemma SuccSound(l: seq<string>, r: seq<string>, v: Node, t: Node)
    requires Exact(l, r)
    requires t in Succ(l, r, v) && Open(l, r, t)
    ensures Open(l, r, v)
  {
    var w :| Meets(l, r, t, w);
    if t.i == v.i && t.j == v.j {
      assert Meets(l, r, v, w);
    } else if (t.i == v.i || StarAt(l, v.i)) && (t.j == v.j || StarAt(r, v.j)) {
      if t.i != v.i { SkipGlobStar(l, v.i, w); }
      if t.j != v.j { SkipGlobStar(r, v.j, w); }
      assert Meets(l, r, v, w);
    } else {
      var name: string;
      if StarAt(r, v.j) {
        name := SampleName(l[v.i]);
      } else if StarAt(l, v.i) {
        name := SampleName(r[v.j]);
      } else {
        name :| name != "" && SegMatch(l[v.i], name) && SegMatch(r[v.j], name);
        MatchIsSlashFree(l[v.i], name);
      }
      Extend(l, r, v, t, name, w);
    }
  }

  /** A closed visited set that lacks the accepting node holds no node whose suffixes meet. */
  lemma {:induction false} NothingMissed(l: seq<string>, r: seq<string>, visited: set<Node>, v: Node, w: seq<string>)
    requires Explored(u => Succ(l, r, u), visited, [])
    requires Node(|l|, |r|, true) !in visited
    requires v in visited && InRange(l, r, v) && (v.consumed || w != [])
    ensures !Meets(l, r, v, w)
    decreases |w|, |l| - v.i + |r| - v.j
  {
    if Meets(l, r, v, w) {
      var succ := u => Succ(l, r, u);
      assert forall t :: t in succ(v) ==> t in visited;
      assert v.i < |l| ==> l[v.i..][1..] == l[v.i + 1..];
      assert v.j < |r| ==> r[v.j..][1..] == r[v.j + 1..];
      var ls, rs := StarAt(l, v.i), StarAt(r, v.j);
      if ls && PathMatch(l[v.i + 1..], w) {
        assert Node(v.i + 1, v.j, v.consumed) in succ(v);
        NothingMissed(l, r, visited, Node(v.i + 1, v.j, v.consumed), w);
      } else if rs && PathMatch(r[v.j + 1..], w) {
        assert Node(v.i, v.j + 1, v.consumed) in succ(v);
        NothingMissed(l, r, visited, Node(v.i, v.j + 1, v.consumed), w);
      } else if w != [] {
        assert !ls && !rs ==> IsName(w[0]) && SegmentsOverlap(l[v.i], r[v.j]);
        var t := Node(if ls then v.i else v.i + 1, if rs then v.j else v.j + 1, true);
        assert t in succ(v);
        NothingMissed(l, r, visited, t, w[1..]);
      }
    }
  }

  const START := Node(0, 0, false)

  /** What the search decides on any input: whether pushes lead from the start to the end with
      the flag raised. */
  ghost predicate IsRun(l: seq<string>, r: seq<string>, run: seq<Node>) {
    run != [] && run[0] == START && forall k :: 0 <= k < |run| - 1 ==> run[k + 1] in Succ(l, r, run[k])
  }

  ghost predicate Reached(l: seq<string>, r: seq<string>, v: Node) {
    exists run :: IsRun(l, r, run) && run[|run| - 1] == v
  }

  ghost predicate Accepts(l: seq<string>, r: seq<string>) {
    Reached(l, r, Node(|l|, |r|, true))
  }

  lemma ReachedGrows(l: seq<string>, r: seq<string>, v: Node, t: Node)
    requires Reached(l, r, v) && t in Succ(l, r, v)
    ensures Reached(l, r, t)
  {
    var run :| IsRun(l, r, run) && run[|run| - 1] == v;
    assert IsRun(l, r, run + [t]);
  }

  lemma StartIsReached(l: seq<string>, r: seq<string>)
    ensures Reached(l, r, START)
  {
    assert IsRun(l, r, [START]);
  }

  /** Whatever contains the start and is closed contains everything reached. */
  lemma {:induction false} RunStays(l: seq<string>, r: seq<string>, visited: set<Node>, run: seq<Node>)
    requires Explored(u => Succ(l, r, u), visited, []) && START in visited && IsRun(l, r, run)
    ensures run[|run| - 1] in visited
  {
    if |run| > 1 {
      var before := run[..|run| - 1];
      RunStays(l, r, visited, before);
      var succ := u => Succ(l, r, u);
      assert run[|run| - 1] in succ(before[|before| - 1]);
    }
  }

  /** Along a run, what is open at the end was open at the start. */
  lemma {:induction false} OpenAtStart(l: seq<string>, r: seq<string>, run: seq<Node>)
    requires Exact(l, r) && IsRun(l, r, run) && Open(l, r, run[|run| - 1])
    ensures Open(l, r, START)
  {
    if |run| > 1 {
      var before := run[..|run| - 1];
      SuccSound(l, r, before[|before| - 1], run[|run| - 1]);
      OpenAtStart(l, r, before);
    }
  }

  /** The nodes reached, as a closed set within the bounds. */
  ghost function AllReached(l: seq<string>, r: seq<string>): set<Node> {
    set v | v in Box(|l|, |r|) && Reached(l, r, v)
  }

  lemma MovesStayInRange(l: seq<string>, r: seq<string>, v: Node, t: Node)
    requires t in Succ(l, r, v)
    ensures InRange(l, r, t)
  {
  }

  lemma ReachedIsClosed(l: seq<string>, r: seq<string>)
    ensures Explored(u => Succ(l, r, u), AllReached(l, r), []) && START in AllReached(l, r)
  {
    StartIsReached(l, r);
    var reached, succ := AllReached(l, r), u => Succ(l, r, u);
    forall v, t | v in reached && t in succ(v) ensures t in reached {
      MovesStayInRange(l, r, v, t);
      ReachedGrows(l, r, v, t);
    }
  }

  /** The search never misses a common path, on any input. */
  lemma OverlapIsAccepted(l: seq<string>, r: seq<string>)
    requires PathsOverlap(l, r)
    ensures Accepts(l, r)
  {
    var w :| IsConcrete(w) && PathMatch(l, w) && PathMatch(r, w);
    if !Accepts(l, r) {
      ReachedIsClosed(l, r);
      assert l[0..] == l && r[0..] == r;
      NothingMissed(l, r, AllReached(l, r), START, w);
    }
  }

  /** Where it is exact it invents none. The end with the flag raised means that some name was
      consumed, or that both patterns are made of `**` alone and any path will do. */
  lemma AcceptedIsOverlap(l: seq<string>, r: seq<string>)
    requires Exact(l, r) && Accepts(l, r)
    ensures PathsOverlap(l, r)
  {
    var end := Node(|l|, |r|, true);
    var run :| IsRun(l, r, run) && run[|run| - 1] == end;
    assert Meets(l, r, end, []);
    OpenAtStart(l, r, run);
    var w :| Meets(l, r, START, w);
    assert l[0..] == l && r[0..] == r;
    if w == [] {
      EmptyPathGrows(l);
      EmptyPathGrows(r);
      assert IsConcrete(["a"]);
    }
  }

  ghost predicate Good(l: seq<string>, r: seq<string>, u: Node) {
    InRange(l, r, u) && Reached(l, r, u)
  }

  ghost predicate Searching(l: seq<string>, r: seq<string>, visited: set<Node>, queue: seq<Node>) {
    && Explored(u => Succ(l, r, u), visited, queue)
    && AllGood(u => Good(l, r, u), visited, queue)
    && (START in visited || START in queue)
    && Node(|l|, |r|, true) !in visited
  }

  lemma SearchSkip(l: seq<string>, r: seq<string>, visited: set<Node>, queue: seq<Node>)
    requires Searching(l, r, visited, queue) && |queue| > 0 && queue[0] in visited
    ensures Searching(l, r, visited, queue[1..])
  {
    SkipVisited(u => Succ(l, r, u), u => Good(l, r, u), visited, queue);
    assert queue == [queue[0]] + queue[1..];
  }

  lemma SearchExpand(l: seq<string>, r: seq<string>, visited: set<Node>, queue: seq<Node>)
    requires Searching(l, r, visited, queue) && |queue| > 0 && queue[0] != Node(|l|, |r|, true)
    ensures Searching(l, r, visited + {queue[0]}, queue[1..] + Succ(l, r, queue[0]))
  {
    var succ := u => Succ(l, r, u);
    var good := u => Good(l, r, u);
    assert good(queue[0]);
    forall t | t in succ(queue[0]) ensures good(t) {
      ReachedGrows(l, r, queue[0], t);
    }
    Expand(succ, good, visited, queue);
    assert queue == [queue[0]] + queue[1..];
  }

  lemma SearchBound(l: seq<string>, r: seq<string>, visited: set<Node>, queue: seq<Node>)
    requires Searching(l, r, visited, queue)
    ensures |visited| <= 2 * (|l| + 1) * (|r| + 1)
  {
    var good := u => Good(l, r, u);
    assert forall u :: u in visited ==> good(u);
    BoxBound(visited, |l|, |r|);
  }

  lemma SearchFound(l: seq<string>, r: seq<string>, visited: set<Node>, queue: seq<Node>)
    requires Searching(l, r, visited, queue) && |queue| > 0 && queue[0] == Node(|l|, |r|, true)
    ensures Accepts(l, r)
    ensures |visited + {queue[0]}| <= 2 * (|l| + 1) * (|r| + 1)
  {
    var good := u => Good(l, r, u);
    assert good(queue[0]);
    assert forall u :: u in visited ==> good(u);
    BoxBound(visited + {queue[0]}, |l|, |r|);
  }

  lemma SearchExhausted(l: seq<string>, r: seq<string>, visited: set<Node>)
    requires Searching(l, r, visited, [])
    ensures !Accepts(l, r)
  {
    if run :| IsRun(l, r, run) && run[|run| - 1] == Node(|l|, |r|, true) {
      RunStays(l, r, visited, run);
    }
  }

  /** The pushes of one round, in the order the search makes them. */
  method PushSuccessors(l: seq<string>, r: seq<string>, node: Node, pending: seq<Node>) returns (queue: seq<Node>)
    requires IsSplit(l) && IsSplit(r) && InRange(l, r, node)
    ensures queue == pending + Succ(l, r, node)
  {
    queue := pending;
    var leftGlobStar, rightGlobStar := StarAt(l, node.i), StarAt(r, node.j);
    if leftGlobStar {
      queue := queue + [Node(node.i + 1, node.j, node.consumed)];
      queue := queue + [Node(node.i, node.j, true)];
    }
    if rightGlobStar {
      queue := queue + [Node(node.i, node.j + 1, node.consumed)];
      queue := queue + [Node(node.i, node.j, true)];
    }
    if leftGlobStar && rightGlobStar {
      queue := queue + [Node(node.i + 1, node.j + 1, node.consumed)];
      return;
    }
    if node.i >= |l| || node.j >= |r| { return; }
    if rightGlobStar {
      queue := queue + [Node(node.i + 1, node.j, true)];
      return;
    }
    if leftGlobStar {
      queue := queue + [Node(node.i, node.j + 1, true)];
      return;
    }
    var meet, _ := ClaimSegments.SegmentPatternsOverlap(l[node.i], r[node.j]);
    if meet {
      queue := queue + [Node(node.i + 1, node.j + 1, true)];
    }
  }

  /** The search on split patterns. It never misses a common path; where it is exact it never
      invents one either. */
  method Search(l: seq<string>, r: seq<string>) returns (overlap: bool, ghost visits: nat)
    requires IsSplit(l) && IsSplit(r)
    ensures overlap == Accepts(l, r)
    ensures PathsOverlap(l, r) ==> overlap
    ensures overlap && Exact(l, r) ==> PathsOverlap(l, r)
    ensures visits <= 2 * (|l| + 1) * (|r| + 1)
  {
    if PathsOverlap(l, r) { OverlapIsAccepted(l, r); }
    if Exact(l, r) && Accepts(l, r) { AcceptedIsOverlap(l, r); }
    StartIsReached(l, r);
    var queue := [START];
    var visited: set<Node> := {};
    while |queue| > 0
      invariant Searching(l, r, visited, queue)
      decreases 2 * (|l| + 1) * (|r| + 1) - |visited|, |queue|
    {
      SearchBound(l, r, visited, queue);
      var node := queue[0];
      if node in visited {
        SearchSkip(l, r, visited, queue);
        queue := queue[1..];
        continue;
      }
      if node.i == |l| && node.j == |r| && node.consumed {
        SearchFound(l, r, visited, queue);
        return true, |visited + {node}|;
      }
      SearchExpand(l, r, visited, queue);
      visited := visited + {node};
      queue := PushSuccessors(l, r, node, queue[1..]);
      SearchBound(l, r, visited, queue);
    }
    SearchExhausted(l, r, visited);
    SearchBound(l, r, visited, queue);
    return false, |visited|;
  }
}
