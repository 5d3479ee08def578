/**
 Generic sequence helpers: distinctness, first-index lookup and an
 order-preserving filter together with the indices it keeps.
 */
module Seqs {

  /** No element occurs twice. */
  predicate Distinct<T(==)>(xs: seq<T>)
  {
    forall i, j :: 0 <= i < j < |xs| ==> xs[i] != xs[j]
  }

  /** Dropping the first element keeps a sequence free of repetitions. */
  lemma DistinctTail<T>(xs: seq<T>)
    requires Distinct(xs) && |xs| > 0
    ensures Distinct(xs[1..])
  {
    forall i, j | 0 <= i < j < |xs| - 1
      ensures xs[1..][i] != xs[1..][j]
    {
      assert xs[1..][i] == xs[i + 1] && xs[1..][j] == xs[j + 1];
    }
  }

  predicate StrictlyIncreasing(xs: seq<nat>)
  {
    forall i, j :: 0 <= i < j < |xs| ==> xs[i] < xs[j]
  }

  /** Position of the first occurrence of `x` in `xs`. */
  function IndexOf<T(==)>(xs: seq<T>, x: T): (i: nat)
    requires x in xs
    ensures i < |xs| && xs[i] == x
    ensures forall j :: 0 <= j < i ==> xs[j] != x
  {
    if xs[0] == x then 0 else 1 + IndexOf(xs[1..], x)
  }

  /** Every element of a prefix is an element of the whole. */
  lemma PrefixMembers<T>(a: seq<T>, b: seq<T>)
    requires a <= b
    ensures forall x :: x in a ==> x in b
  {
    forall x | x in a
      ensures x in b
    {
      var i :| 0 <= i < |a| && a[i] == x;
      assert b[i] == x;
    }
  }

  /** Appending never moves the first occurrence of an element already present. */
  lemma IndexOfAppend<T>(xs: seq<T>, ys: seq<T>, x: T)
    requires x in xs
    ensures x in xs + ys
    ensures IndexOf(xs + ys, x) == IndexOf(xs, x)
  {
    var i := IndexOf(xs, x);
    var k := IndexOf(xs + ys, x);
    assert (xs + ys)[i] == x;
  }

  /** In a sequence without repetitions the element at `i` is first found at `i`. */
  lemma IndexOfDistinct<T>(xs: seq<T>, i: nat)
    requires Distinct(xs) && i < |xs|
    ensures IndexOf(xs, xs[i]) == i
  {
  }

  /** The elements of `xs` that satisfy `p`, in their original order. */
  function Filter<T(==)>(xs: seq<T>, p: T -> bool): (r: seq<T>)
    ensures |r| <= |xs|
    ensures forall k :: 0 <= k < |r| ==> r[k] in xs && p(r[k])
    ensures forall i :: 0 <= i < |xs| && p(xs[i]) ==> xs[i] in r
    decreases |xs|
  {
    if |xs| == 0 then []
    else
      var init := xs[..|xs| - 1];
      assert xs == init + [xs[|xs| - 1]];
      Filter(init, p) + (if p(xs[|xs| - 1]) then [xs[|xs| - 1]] else [])
  }

  /** One more element at the end: its position is kept exactly when it passes. */
  lemma KeptSnoc<T>(xs: seq<T>, p: T -> bool, ki: seq<nat>)
    requires |xs| > 0 && StrictlyIncreasing(ki)
    requires forall k :: 0 <= k < |ki| ==> ki[k] < |xs| - 1
    requires forall i :: 0 <= i < |xs| - 1 ==> (i in ki <==> p(xs[i]))
    ensures var n := |xs| - 1;
            var idx := ki + (if p(xs[n]) then [n] else []);
            && StrictlyIncreasing(idx)
            && (forall k :: 0 <= k < |idx| ==> idx[k] < |xs|)
            && (forall i :: 0 <= i < |xs| ==> (i in idx <==> p(xs[i])))
  {
    var n := |xs| - 1;
    var idx := ki + (if p(xs[n]) then [n] else []);
    forall i | 0 <= i < |xs|
      ensures i in idx <==> p(xs[i])
    {
      if i == n {
        assert n !in ki;
      } else {
        assert i in idx <==> i in ki;
      }
    }
  }

  /**
   The positions of `xs` whose element satisfies `p`: strictly increasing,
   in range, and exactly those positions.
   */
  function Kept<T>(xs: seq<T>, p: T -> bool): (idx: seq<nat>)
    ensures StrictlyIncreasing(idx)
    ensures forall k :: 0 <= k < |idx| ==> idx[k] < |xs|
    ensures forall i :: 0 <= i < |xs| ==> (i in idx <==> p(xs[i]))
    decreases |xs|
  {
    if |xs| == 0 then []
    else
      var init := xs[..|xs| - 1];
      var ki := Kept(init, p);
      assert forall i :: 0 <= i < |init| ==> xs[i] == init[i];
      KeptSnoc(xs, p, ki);
      ki + (if p(xs[|xs| - 1]) then [|xs| - 1] else [])
  }

  /** `Filter` picks out exactly the elements at the positions `Kept` lists, in order. */
  lemma {:induction false} FilterIsKept<T>(xs: seq<T>, p: T -> bool)
    ensures |Filter(xs, p)| == |Kept(xs, p)|
    ensures forall k :: 0 <= k < |Kept(xs, p)| ==> Filter(xs, p)[k] == xs[Kept(xs, p)[k]]
    decreases |xs|
  {
    if |xs| > 0 {
      var init := xs[..|xs| - 1];
      FilterIsKept(init, p);
      assert forall i :: 0 <= i < |init| ==> xs[i] == init[i];
    }
  }

  /** Filtering a sequence all of whose elements pass gives it back unchanged. */
  lemma {:induction false} FilterKeepsAll<T>(xs: seq<T>, p: T -> bool)
    requires forall i :: 0 <= i < |xs| ==> p(xs[i])
    ensures Filter(xs, p) == xs
    decreases |xs|
  {
    if |xs| > 0 {
      var init := xs[..|xs| - 1];
      FilterKeepsAll(init, p);
      assert xs == init + [xs[|xs| - 1]];
    }
  }

  /** Filtering keeps a sequence free of repetitions. */
  lemma FilterDistinct<T>(xs: seq<T>, p: T -> bool)
    requires Distinct(xs)
    ensures Distinct(Filter(xs, p))
  {
    var r := Filter(xs, p);
    var idx := Kept(xs, p);
    FilterIsKept(xs, p);
    forall i, j | 0 <= i < j < |r|
      ensures r[i] != r[j]
    {
      assert idx[i] < idx[j];
      assert xs[idx[i]] == r[i] && xs[idx[j]] == r[j];
    }
  }

  /** Taking `k` elements and then dropping the first is dropping the first and then taking `k - 1`. */
  lemma TakeThenDrop<T>(xs: seq<T>, k: nat)
    requires 0 < k <= |xs|
    ensures xs[..k][0] == xs[0] && xs[..k][1..] == xs[1..][..k - 1]
  {
    assert forall i :: 0 <= i < k - 1 ==> xs[..k][1..][i] == xs[i + 1] == xs[1..][..k - 1][i];
  }
}
