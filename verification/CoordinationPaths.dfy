/** `globPatternsOverlap` of the coordination engine: the second search over the product
    of two patterns of segments. It has no flag and calls its own segment search. */
module CoordinationPaths {
  import opened GlobLanguage
  import opened Samples
  import opened Worklist
  import CoordinationSegments

  predicate InRange(l: seq<string>, r: seq<string>, v: Cell) {
    v.i <= |l| && v.j <= |r|
  }

  predicate StarAt(p: seq<string>, k: nat) {
    k < |p| && p[k] == "**"
  }

  /** A run of strings without separators; unlike names they may be empty. */
  predicate SlashFree(w: seq<string>) {
    forall k :: 0 <= k < |w| ==> '/' !in w[k]
  }

  /** What the search decides on any split patterns. */
  ghost predicate RunsMeet(l: seq<string>, r: seq<string>) {
    exists w :: SlashFree(w) && PathMatch(l, w) && PathMatch(r, w)
  }

  ghost function Succ(l: seq<string>, r: seq<string>, v: Cell): seq<Cell> {
    if !InRange(l, r, v) then [] else
    (if StarAt(l, v.i) then [Cell(v.i + 1, v.j)] else []) +
    (if StarAt(l, v.i) && v.j < |r| then [Cell(v.i, v.j + 1)] else []) +
    (if StarAt(r, v.j) then [Cell(v.i, v.j + 1)] else []) +
    (if StarAt(r, v.j) && v.i < |l| then [Cell(v.i + 1, v.j)] else []) +
    (if v.i < |l| && v.j < |r| && !StarAt(l, v.i) && !StarAt(r, v.j)
        && CoordinationSegments.StringsMeet(l[v.i], r[v.j])
     then [Cell(v.i + 1, v.j + 1)] else [])
  }

  ghost predicate Meets(l: seq<string>, r: seq<string>, v: Cell, w: seq<string>)
    requires InRange(l, r, v)
  {
    SlashFree(w) && PathMatch(l[v.i..], w) && PathMatch(r[v.j..], w)
  }

  ghost predicate Open(l: seq<string>, r: seq<string>, v: Cell) {
    InRange(l, r, v) && exists w :: Meets(l, r, v, w)
  }

  lemma Extend(l: seq<string>, r: seq<string>, v: Cell, t: Cell, name: string, w: seq<string>)
    requires InRange(l, r, v) && InRange(l, r, t) && v.i <= t.i <= v.i + 1 && v.j <= t.j <= v.j + 1
    requires v.i < |l| && v.j < |r| && '/' !in name && Meets(l, r, t, w)
    requires StarAt(l, v.i) || (t.i == v.i + 1 && SegMatch(l[v.i], name))
    requires StarAt(r, v.j) || (t.j == v.j + 1 && SegMatch(r[v.j], name))
    ensures Meets(l, r, v, [name] + w)
  {
    PrependName(l, v.i, t.i, name, w);
    PrependName(r, v.j, t.j, name, w);
  }

  lemma SuccSound(l: seq<string>, r: seq<string>, v: Cell, t: Cell)
    requires IsSplit(l) && IsSplit(r)
    requires t in Succ(l, r, v) && Open(l, r, t)
    ensures Open(l, r, v)
  {
    var w :| Meets(l, r, t, w);
    if (t.i == v.i || StarAt(l, v.i)) && (t.j == v.j || StarAt(r, v.j)) {
      if t.i != v.i { SkipGlobStar(l, v.i, w); }
      if t.j != v.j { SkipGlobStar(r, v.j, w); }
      assert Meets(l, r, v, w);
    } else {
      var name: string;
      if StarAt(r, v.j) {
        name := SampleName(l[v.i]);
      } else if StarAt(l, v.i) {
        name := SampleName(r[v.j]);
      } else {
        name :| SegMatch(l[v.i], name) && SegMatch(r[v.j], name);
        MatchIsSlashFree(l[v.i], name);
      }
      Extend(l, r, v, t, name, w);
    }
  }

  /** A closed visited set that lacks the accepting node holds no node whose suffixes meet. */
  lemma {:induction false} NothingMissed(l: seq<string>, r: seq<string>, visited: set<Cell>, v: Cell, w: seq<string>)
    requires Explored(u => Succ(l, r, u), visited, [])
    requires Cell(|l|, |r|) !in visited
    requires v in visited && InRange(l, r, v)
    ensures !Meets(l, r, v, w)
    decreases |w|, |l| - v.i + |r| - v.j
  {
    if Meets(l, r, v, w) {
      var succ := u => Succ(l, r, u);
      assert forall t :: t in succ(v) ==> t in visited;
      assert v.i < |l| ==> l[v.i..][1..] == l[v.i + 1..];
      assert v.j < |r| ==> r[v.j..][1..] == r[v.j + 1..];
      var ls, rs := StarAt(l, v.i), StarAt(r, v.j);
      if ls && PathMatch(l[v.i + 1..], w) {
        assert Cell(v.i + 1, v.j) in succ(v);
        NothingMissed(l, r, visited, Cell(v.i + 1, v.j), w);
      } else if rs && PathMatch(r[v.j + 1..], w) {
        assert Cell(v.i, v.j + 1) in succ(v);
        NothingMissed(l, r, visited, Cell(v.i, v.j + 1), w);
      } else if w != [] {
        assert !ls && !rs ==> SegMatch(l[v.i], w[0]) && SegMatch(r[v.j], w[0]);
        var t := Cell(if ls then v.i else v.i + 1, if rs then v.j else v.j + 1);
        assert t == v || t in succ(v);
        NothingMissed(l, r, visited, t, w[1..]);
      }
    }
  }

  const START := Cell(0, 0)

  ghost predicate Good(l: seq<string>, r: seq<string>, u: Cell) {
    InRange(l, r, u) && (IsSplit(l) && IsSplit(r) && Open(l, r, u) ==> Open(l, r, START))
  }

  ghost predicate Searching(l: seq<string>, r: seq<string>, visited: set<Cell>, queue: seq<Cell>) {
    && Explored(u => Succ(l, r, u), visited, queue)
    && AllGood(u => Good(l, r, u), visited, queue)
    && (START in visited || START in queue)
    && Cell(|l|, |r|) !in visited
  }

  lemma SearchSkip(l: seq<string>, r: seq<string>, visited: set<Cell>, queue: seq<Cell>)
    requires Searching(l, r, visited, queue) && |queue| > 0 && queue[0] in visited
    ensures Searching(l, r, visited, queue[1..])
  {
    SkipVisited(u => Succ(l, r, u), u => Good(l, r, u), visited, queue);
    assert queue == [queue[0]] + queue[1..];
  }

  lemma SearchExpand(l: seq<string>, r: seq<string>, visited: set<Cell>, queue: seq<Cell>)
    requires Searching(l, r, visited, queue) && |queue| > 0 && queue[0] != Cell(|l|, |r|)
    ensures Searching(l, r, visited + {queue[0]}, queue[1..] + Succ(l, r, queue[0]))
  {
    var succ := u => Succ(l, r, u);
    var good := u => Good(l, r, u);
    assert good(queue[0]);
    forall t | t in succ(queue[0]) ensures good(t) {
      if IsSplit(l) && IsSplit(r) && Open(l, r, t) { SuccSound(l, r, queue[0], t); }
    }
    Expand(succ, good, visited, queue);
    assert queue == [queue[0]] + queue[1..];
  }

  lemma SearchBound(l: seq<string>, r: seq<string>, visited: set<Cell>, queue: seq<Cell>)
    requires Searching(l, r, visited, queue)
    ensures |visited| <= (|l| + 1) * (|r| + 1)
  {
    var good := u => Good(l, r, u);
    assert forall u :: u in visited ==> good(u);
    CellBoxBound(visited, |l|, |r|);
  }

  lemma SearchFound(l: seq<string>, r: seq<string>, visited: set<Cell>, queue: seq<Cell>)
    requires IsSplit(l) && IsSplit(r)
    requires Searching(l, r, visited, queue) && |queue| > 0 && queue[0] == Cell(|l|, |r|)
    ensures RunsMeet(l, r)
    ensures |visited + {queue[0]}| <= (|l| + 1) * (|r| + 1)
  {
    var good := u => Good(l, r, u);
    assert good(queue[0]);
    assert forall u :: u in visited ==> good(u);
    CellBoxBound(visited + {queue[0]}, |l|, |r|);
    assert Meets(l, r, queue[0], []);
    var w :| Meets(l, r, START, w);
    assert l[0..] == l && r[0..] == r;
  }

  lemma SearchExhausted(l: seq<string>, r: seq<string>, visited: set<Cell>)
    requires Searching(l, r, visited, [])
    ensures !RunsMeet(l, r)
  {
    if w :| SlashFree(w) && PathMatch(l, w) && PathMatch(r, w) {
      assert l[0..] == l && r[0..] == r;
      NothingMissed(l, r, visited, START, w);
    }
  }

  /** A run with every empty string replaced by a one-character name. */
  function Fill(w: seq<string>): (f: seq<string>)
    ensures SlashFree(w) ==> AllNames(f)
    ensures f == [] <==> w == []
  {
    if w == [] then []
    else
      assert SlashFree(w) ==> SlashFree(w[1..]);
      [if w[0] == "" then "a" else w[0]] + Fill(w[1..])
  }

  lemma {:induction false} FillMatches(p: seq<string>, w: seq<string>)
    requires AllNames(p) && PathMatch(p, w)
    ensures PathMatch(p, Fill(w))
    decreases |p| + |w|
  {
    if p != [] {
      assert AllNames(p[1..]);
      if p[0] == "**" && PathMatch(p[1..], w) {
        FillMatches(p[1..], w);
      } else {
        assert Fill(w)[1..] == Fill(w[1..]);
        if p[0] == "**" {
          FillMatches(p, w[1..]);
        } else {
          FillMatches(p[1..], w[1..]);
          if w[0] == "" { EmptyMatchGrows(p[0]); }
        }
      }
    }
  }

  /** On patterns without empty segments the flag-free question is the flagged one, so the two
      engines decide the same relation. */
  lemma EnginesAgree(l: seq<string>, r: seq<string>)
    requires IsPattern(l) && IsPattern(r)
    ensures RunsMeet(l, r) <==> PathsOverlap(l, r)
  {
    if RunsMeet(l, r) {
      var w :| SlashFree(w) && PathMatch(l, w) && PathMatch(r, w);
      FillMatches(l, w);
      FillMatches(r, w);
      if w == [] {
        EmptyPathGrows(l);
        EmptyPathGrows(r);
        assert IsConcrete(["a"]);
      } else {
        assert IsConcrete(Fill(w));
      }
    }
  }

  /** Without that condition they part: the empty string against itself. */
  lemma EnginesPartOnEmptySegments()
    ensures RunsMeet([""], [""]) && !PathsOverlap([""], [""])
  {
    assert SlashFree([""]) && SegMatch("", "") && PathMatch([""], [""]);
  }

  /** The pushes of one round, in the order the search makes them. */
  method PushSuccessors(l: seq<string>, r: seq<string>, node: Cell, pending: seq<Cell>) returns (queue: seq<Cell>)
    requires IsSplit(l) && IsSplit(r) && InRange(l, r, node)
    ensures queue == pending + Succ(l, r, node)
  {
    queue := pending;
    var leftStar, rightStar := StarAt(l, node.i), StarAt(r, node.j);
    if leftStar {
      queue := queue + [Cell(node.i + 1, node.j)];
      if node.j < |r| { queue := queue + [Cell(node.i, node.j + 1)]; }
    }
    if rightStar {
      queue := queue + [Cell(node.i, node.j + 1)];
      if node.i < |l| { queue := queue + [Cell(node.i + 1, node.j)]; }
    }
    if node.i >= |l| || node.j >= |r| { return; }
    if leftStar || rightStar { return; }
    var meet, _ := CoordinationSegments.SegmentPatternsOverlap(l[node.i], r[node.j]);
    if meet {
      queue := queue + [Cell(node.i + 1, node.j + 1)];
    }
  }

  /** The search on split patterns: true exactly when some run of strings matches both. */
  method Search(l: seq<string>, r: seq<string>) returns (overlap: bool, ghost visits: nat)
    requires IsSplit(l) && IsSplit(r)
    ensures overlap == RunsMeet(l, r)
    ensures visits <= (|l| + 1) * (|r| + 1)
  {
    var queue := [START];
    var visited: set<Cell> := {};
    while |queue| > 0
      invariant Searching(l, r, visited, queue)
      decreases (|l| + 1) * (|r| + 1) - |visited|, |queue|
    {
      SearchBound(l, r, visited, queue);
      var node := queue[0];
      if node in visited {
        SearchSkip(l, r, visited, queue);
        queue := queue[1..];
        continue;
      }
      if node.i == |l| && node.j == |r| {
        SearchFound(l, r, visited, queue);
        return true, |visited + {node}|;
      }
      SearchExpand(l, r, visited, queue);
      visited := visited + {node};
      queue := PushSuccessors(l, r, node, queue[1..]);
      SearchBound(l, r, visited, queue);
    }
    SearchExhausted(l, r, visited);
    SearchBound(l, r, visited, queue);
    return false, |visited|;
  }
}
