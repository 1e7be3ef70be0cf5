/** Which pairs of nodes an overlap graph looks at, by position and in order. */
module PairCounts {
  import opened OverlapGraph
  import opened ResourceCoordination

  predicate ComparableAt(nodes: seq<Node>, x: int, y: int) {
    0 <= x < y < |nodes| && Comparable(nodes[x], nodes[y])
  }

  predicate Precedes(p: (int, int), q: (int, int)) {
    p.0 < q.0 || (p.0 == q.0 && p.1 < q.1)
  }

  /** Pairs of positions in ascending order, each once. */
  predicate Ascending(positions: seq<(int, int)>) {
    forall i, j :: 0 <= i < j < |positions| ==> Precedes(positions[i], positions[j])
  }

  /** The pairs are the nodes at these positions. */
  predicate StandAt(pairs: seq<(Node, Node)>, nodes: seq<Node>, positions: seq<(int, int)>) {
    |pairs| == |positions| && forall k :: 0 <= k < |pairs| ==>
      ComparableAt(nodes, positions[k].0, positions[k].1)
      && pairs[k] == (nodes[positions[k].0], nodes[positions[k].1])
  }

  /** The positions of all comparable pairs: in order, each once, none missing. */
  ghost predicate ListsPairs(nodes: seq<Node>, positions: seq<(int, int)>) {
    && Ascending(positions)
    && (forall k :: 0 <= k < |positions| ==> ComparableAt(nodes, positions[k].0, positions[k].1))
    && (forall x, y :: ComparableAt(nodes, x, y) ==> (x, y) in positions)
  }

  // ----- One row

  lemma JoinedStand(a: seq<(Node, Node)>, b: seq<(Node, Node)>, nodes: seq<Node>, p: seq<(int, int)>,
      q: seq<(int, int)>)
    requires StandAt(a, nodes, p) && StandAt(b, nodes, q)
    ensures StandAt(a + b, nodes, p + q)
  {
  }

  ghost predicate InRowUpTo(positions: seq<(int, int)>, x: int, j: int) {
    forall k :: 0 <= k < |positions| ==> positions[k].0 == x && positions[k].1 < j
  }

  ghost predicate RowComplete(nodes: seq<Node>, positions: seq<(int, int)>, x: int, j: int) {
    forall y :: y < j && ComparableAt(nodes, x, y) ==> (x, y) in positions
  }

  lemma {:induction false} RowIsListed(nodes: seq<Node>, x: nat, j: nat) returns (positions: seq<(int, int)>)
    requires x < j <= |nodes|
    ensures StandAt(Row(nodes, x, j), nodes, positions) && Ascending(positions)
    ensures InRowUpTo(positions, x, j) && RowComplete(nodes, positions, x, j)
    decreases j
  {
    positions := [];
    if j > x + 1 {
      var before := RowIsListed(nodes, x, j - 1);
      positions := if Comparable(nodes[x], nodes[j - 1]) then before + [(x, j - 1)] else before;
      RowGoesOn(nodes, x, j, before, positions);
    }
  }

  lemma RowGoesOn(nodes: seq<Node>, x: nat, j: nat, before: seq<(int, int)>, positions: seq<(int, int)>)
    requires x + 1 < j <= |nodes| && StandAt(Row(nodes, x, j - 1), nodes, before) && Ascending(before)
    requires InRowUpTo(before, x, j - 1) && RowComplete(nodes, before, x, j - 1)
    requires positions == if Comparable(nodes[x], nodes[j - 1]) then before + [(x, j - 1)] else before
    ensures StandAt(Row(nodes, x, j), nodes, positions) && Ascending(positions)
    ensures InRowUpTo(positions, x, j) && RowComplete(nodes, positions, x, j)
  {
    if Comparable(nodes[x], nodes[j - 1]) {
      JoinedStand(Row(nodes, x, j - 1), [(nodes[x], nodes[j - 1])], nodes, before, [(x, j - 1)]);
      OneMoreInRow(before, x, j);
    } else {
      assert Row(nodes, x, j) == Row(nodes, x, j - 1);
    }
    RowIsComplete(nodes, x, j, before, positions);
  }

  lemma OneMoreInRow(before: seq<(int, int)>, x: int, j: int)
    requires Ascending(before) && InRowUpTo(before, x, j - 1)
    ensures Ascending(before + [(x, j - 1)]) && InRowUpTo(before + [(x, j - 1)], x, j)
  {
  }

  lemma RowIsComplete(nodes: seq<Node>, x: nat, j: nat, before: seq<(int, int)>, positions: seq<(int, int)>)
    requires x + 1 < j <= |nodes| && RowComplete(nodes, before, x, j - 1)
    requires positions == if Comparable(nodes[x], nodes[j - 1]) then before + [(x, j - 1)] else before
    ensures RowComplete(nodes, positions, x, j)
  {
    forall y | y < j && ComparableAt(nodes, x, y) ensures (x, y) in positions {
      if y == j - 1 { assert positions[|before|] == (x, y); } else { assert (x, y) in before; }
    }
  }

  // ----- All rows

  ghost predicate Below(positions: seq<(int, int)>, i: int) {
    forall k :: 0 <= k < |positions| ==> positions[k].0 < i
  }

  ghost predicate CompleteBelow(nodes: seq<Node>, positions: seq<(int, int)>, i: int) {
    forall x, y :: x < i && ComparableAt(nodes, x, y) ==> (x, y) in positions
  }

  lemma JoinedAscend(p: seq<(int, int)>, q: seq<(int, int)>, i: int, j: int)
    requires Ascending(p) && Ascending(q) && Below(p, i) && InRowUpTo(q, i, j)
    ensures Ascending(p + q) && Below(p + q, i + 1)
  {
  }

  lemma JoinedComplete(nodes: seq<Node>, p: seq<(int, int)>, q: seq<(int, int)>, i: int)
    requires CompleteBelow(nodes, p, i) && RowComplete(nodes, q, i, |nodes|)
    ensures CompleteBelow(nodes, p + q, i + 1)
  {
    forall x, y | x < i + 1 && ComparableAt(nodes, x, y) ensures (x, y) in p + q {
      assert (x, y) in p || (x, y) in q;
    }
  }

  lemma {:induction false} CandidatesAreListed(nodes: seq<Node>, i: nat) returns (positions: seq<(int, int)>)
    requires i <= |nodes|
    ensures StandAt(Candidates(nodes, i), nodes, positions) && Ascending(positions)
    ensures Below(positions, i) && CompleteBelow(nodes, positions, i)
  {
    positions := [];
    if i > 0 {
      var before := CandidatesAreListed(nodes, i - 1);
      var row := RowIsListed(nodes, i - 1, |nodes|);
      JoinedStand(Candidates(nodes, i - 1), Row(nodes, i - 1, |nodes|), nodes, before, row);
      JoinedAscend(before, row, i - 1, |nodes|);
      JoinedComplete(nodes, before, row, i - 1);
      positions := before + row;
    }
  }

  /** The pairs looked at are all comparable pairs of nodes, in the order of their positions. */
  lemma PairsAreListed(nodes: seq<Node>) returns (positions: seq<(int, int)>)
    ensures ListsPairs(nodes, positions) && StandAt(PairsOf(nodes), nodes, positions)
  {
    positions := CandidatesAreListed(nodes, |nodes|);
  }
}
