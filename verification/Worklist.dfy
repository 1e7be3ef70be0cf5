/** Facts shared by the four worklist searches: a queue of nodes still to be
    expanded, a visited set, and a successor function. */
module Worklist {
  /** Every successor of a visited node has been visited or is queued. */
  ghost predicate Explored<N(!new)>(succ: N -> seq<N>, visited: set<N>, queue: seq<N>) {
    forall v, s :: v in visited && s in succ(v) ==> s in visited || s in queue
  }

  /** Every node met so far satisfies `good`. */
  ghost predicate AllGood<N(!new)>(good: N -> bool, visited: set<N>, queue: seq<N>) {
    && (forall v :: v in visited ==> good(v))
    && (forall v :: v in queue ==> good(v))
  }

  lemma SkipVisited<N(!new)>(succ: N -> seq<N>, good: N -> bool, visited: set<N>, queue: seq<N>)
    requires |queue| > 0 && queue[0] in visited
    requires Explored(succ, visited, queue) && AllGood(good, visited, queue)
    ensures Explored(succ, visited, queue[1..]) && AllGood(good, visited, queue[1..])
  {
    assert queue == [queue[0]] + queue[1..];
  }

  lemma Expand<N(!new)>(succ: N -> seq<N>, good: N -> bool, visited: set<N>, queue: seq<N>)
    requires |queue| > 0
    requires Explored(succ, visited, queue) && AllGood(good, visited, queue)
    requires forall s :: s in succ(queue[0]) ==> good(s)
    ensures Explored(succ, visited + {queue[0]}, queue[1..] + succ(queue[0]))
    ensures AllGood(good, visited + {queue[0]}, queue[1..] + succ(queue[0]))
  {
    assert queue == [queue[0]] + queue[1..];
  }

  /** A search state of an engine that tracks whether anything was consumed. */
  datatype Node = Node(i: nat, j: nat, consumed: bool)

  ghost function Row(i: nat, n: nat): (s: set<Node>)
    ensures forall v: Node :: v in s <==> v.i == i && v.j <= n
    ensures |s| <= 2 * (n + 1)
  {
    (if n == 0 then {} else Row(i, n - 1)) + {Node(i, n, false), Node(i, n, true)}
  }

  ghost function Box(m: nat, n: nat): (s: set<Node>)
    ensures forall v: Node :: v in s <==> v.i <= m && v.j <= n
    ensures |s| <= 2 * (m + 1) * (n + 1)
  {
    if m == 0 then Row(0, n)
    else
      assert 2 * (m + 1) * (n + 1) == 2 * m * (n + 1) + 2 * (n + 1);
      Box(m - 1, n) + Row(m, n)
  }

  lemma BoxBound(visited: set<Node>, m: nat, n: nat)
    requires forall v :: v in visited ==> v.i <= m && v.j <= n
    ensures |visited| <= 2 * (m + 1) * (n + 1)
  {
    SubsetSize(visited, Box(m, n));
  }

  lemma SubsetSize<T>(a: set<T>, b: set<T>)
    requires a <= b
    ensures |a| <= |b|
  {
    assert b == a + (b - a);
  }

  /** A search state of an engine without the flag. */
  datatype Cell = Cell(i: nat, j: nat)

  ghost function CellRow(i: nat, n: nat): (s: set<Cell>)
    ensures forall v: Cell :: v in s <==> v.i == i && v.j <= n
    ensures |s| <= n + 1
  {
    (if n == 0 then {} else CellRow(i, n - 1)) + {Cell(i, n)}
  }

  ghost function CellBox(m: nat, n: nat): (s: set<Cell>)
    ensures forall v: Cell :: v in s <==> v.i <= m && v.j <= n
    ensures |s| <= (m + 1) * (n + 1)
  {
    if m == 0 then CellRow(0, n)
    else
      assert (m + 1) * (n + 1) == m * (n + 1) + (n + 1);
      CellBox(m - 1, n) + CellRow(m, n)
  }

  lemma CellBoxBound(visited: set<Cell>, m: nat, n: nat)
    requires forall v :: v in visited ==> v.i <= m && v.j <= n
    ensures |visited| <= (m + 1) * (n + 1)
  {
    SubsetSize(visited, CellBox(m, n));
  }
}
