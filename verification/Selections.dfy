/** What it means to keep the wanted elements of a list: all of them, in order, as often as they occur. */
module Selections {
  /** The part consists of the elements at these ascending positions. */
  predicate PicksOut<T(==)>(index: seq<int>, part: seq<T>, whole: seq<T>) {
    && |index| == |part| && (forall i, j :: 0 <= i < j < |index| ==> index[i] < index[j])
    && (forall i :: 0 <= i < |index| ==> 0 <= index[i] < |whole| && part[i] == whole[index[i]])
  }

  /** No wanted element is left out. */
  predicate Covers<T>(index: seq<int>, whole: seq<T>, wanted: T -> bool) {
    forall k :: 0 <= k < |whole| && wanted(whole[k]) ==> k in index
  }

  predicate AllWanted<T>(part: seq<T>, wanted: T -> bool) {
    forall i :: 0 <= i < |part| ==> wanted(part[i])
  }

  ghost predicate KeptAt<T(!new)>(index: seq<int>, part: seq<T>, whole: seq<T>, wanted: T -> bool) {
    PicksOut(index, part, whole) && Covers(index, whole, wanted) && AllWanted(part, wanted)
  }

  ghost predicate KeepsExactly<T(!new)>(part: seq<T>, whole: seq<T>, wanted: T -> bool) {
    exists index :: KeptAt(index, part, whole, wanted)
  }

  lemma NothingKept<T(!new)>(wanted: T -> bool)
    ensures KeepsExactly([], [], wanted)
  {
    assert KeptAt([], [], [], wanted);
  }

  function Shifted(index: seq<int>): (shifted: seq<int>)
    ensures |shifted| == |index| && forall i :: 0 <= i < |index| ==> shifted[i] == index[i] + 1
  {
    seq(|index|, i requires 0 <= i < |index| => index[i] + 1)
  }

  lemma PicksOneMore<T>(index: seq<int>, part: seq<T>, whole: seq<T>)
    requires whole != [] && PicksOut(index, part, whole[1..])
    ensures PicksOut(Shifted(index), part, whole)
    ensures PicksOut([0] + Shifted(index), [whole[0]] + part, whole)
  {
  }

  lemma CoversOneMore<T>(index: seq<int>, whole: seq<T>, wanted: T -> bool)
    requires whole != [] && Covers(index, whole[1..], wanted)
    ensures Covers([0] + Shifted(index), whole, wanted)
    ensures !wanted(whole[0]) ==> Covers(Shifted(index), whole, wanted)
  {
    forall k | 0 < k < |whole| && wanted(whole[k]) ensures k in Shifted(index) {
      assert whole[k] == whole[1..][k - 1];
      var i :| 0 <= i < |index| && index[i] == k - 1;
      assert Shifted(index)[i] == k;
    }
  }

  lemma KeptAtOneMore<T(!new)>(index: seq<int>, part: seq<T>, whole: seq<T>, wanted: T -> bool)
    requires whole != [] && KeptAt(index, part, whole[1..], wanted)
    ensures wanted(whole[0]) ==> KeptAt([0] + Shifted(index), [whole[0]] + part, whole, wanted)
    ensures !wanted(whole[0]) ==> KeptAt(Shifted(index), part, whole, wanted)
  {
    PicksOneMore(index, part, whole);
    CoversOneMore(index, whole, wanted);
  }

  /** Keeping element by element. */
  lemma OneMoreKept<T(!new)>(part: seq<T>, whole: seq<T>, wanted: T -> bool)
    requires whole != [] && KeepsExactly(part, whole[1..], wanted)
    ensures KeepsExactly((if wanted(whole[0]) then [whole[0]] else []) + part, whole, wanted)
  {
    var index :| KeptAt(index, part, whole[1..], wanted);
    KeptAtOneMore(index, part, whole, wanted);
    assert [] + part == part;
  }

  /** The elements kept are the wanted ones. */
  lemma KeptElements<T(!new)>(part: seq<T>, whole: seq<T>, wanted: T -> bool)
    requires KeepsExactly(part, whole, wanted)
    ensures forall x :: x in part <==> x in whole && wanted(x)
  {
    var index :| KeptAt(index, part, whole, wanted);
    forall x | x in whole && wanted(x) ensures x in part {
      var k :| 0 <= k < |whole| && whole[k] == x;
      var i :| 0 <= i < |index| && index[i] == k;
      assert part[i] == x;
    }
  }

  lemma AnyOf(a: seq<int>) returns (k: int)
    requires a != []
    ensures k in a
  {
    k := a[0];
  }

  /** Ascending lists of the same numbers are the same. */
  lemma {:induction false} SamePositions(a: seq<int>, b: seq<int>)
    requires forall i, j :: 0 <= i < j < |a| ==> a[i] < a[j]
    requires forall i, j :: 0 <= i < j < |b| ==> b[i] < b[j]
    requires forall k :: k in a <==> k in b
    ensures a == b
  {
    if a != [] && b != [] {
      assert a[0] in a && b[0] in b;
      forall k ensures k in a[1..] <==> k in b[1..] {
        assert k in a <==> k == a[0] || k in a[1..];
        assert k in b <==> k == b[0] || k in b[1..];
      }
      SamePositions(a[1..], b[1..]);
      assert a == [a[0]] + a[1..] && b == [b[0]] + b[1..];
    } else if a != [] {
      var k := AnyOf(a);
    } else if b != [] {
      var k := AnyOf(b);
    }
  }

  /** There is one way to keep exactly the wanted elements. */
  lemma KeptIsUnique<T(!new)>(a: seq<T>, b: seq<T>, whole: seq<T>, wanted: T -> bool)
    requires KeepsExactly(a, whole, wanted) && KeepsExactly(b, whole, wanted)
    ensures a == b
  {
    var i :| KeptAt(i, a, whole, wanted);
    var j :| KeptAt(j, b, whole, wanted);
    SamePositions(i, j);
  }

  function Kept<T>(whole: seq<T>, wanted: T -> bool): seq<T> {
    if whole == [] then [] else (if wanted(whole[0]) then [whole[0]] else []) + Kept(whole[1..], wanted)
  }

  lemma {:induction false} KeptIsExact<T(!new)>(whole: seq<T>, wanted: T -> bool)
    ensures KeepsExactly(Kept(whole, wanted), whole, wanted)
  {
    if whole == [] {
      NothingKept(wanted);
    } else {
      KeptIsExact(whole[1..], wanted);
      OneMoreKept(Kept(whole[1..], wanted), whole, wanted);
    }
  }

  lemma {:induction false} KeptCounts<T(!new)>(whole: seq<T>, wanted: T -> bool, x: T)
    ensures multiset(Kept(whole, wanted))[x] == if wanted(x) then multiset(whole)[x] else 0
  {
    if whole != [] {
      KeptCounts(whole[1..], wanted, x);
      assert whole == [whole[0]] + whole[1..];
    }
  }

  /** Every element is kept as often as it occurs, or not at all. */
  lemma KeptMultiset<T(!new)>(part: seq<T>, whole: seq<T>, wanted: T -> bool, x: T)
    requires KeepsExactly(part, whole, wanted)
    ensures multiset(part)[x] == if wanted(x) then multiset(whole)[x] else 0
  {
    KeptIsExact(whole, wanted);
    KeptIsUnique(part, Kept(whole, wanted), whole, wanted);
    KeptCounts(whole, wanted, x);
  }
}
