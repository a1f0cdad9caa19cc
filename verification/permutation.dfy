/**
 * Arrival orders. The download goroutines of main.go finish in an order nobody
 * controls; the model names that order by a sequence of task indices that is a
 * permutation of 0..n-1, and these lemmas carry facts across such a reordering.
 */
module Permutation {

  /** The indices 0..n-1 in increasing order. */
  function Range(n: nat): (r: seq<nat>)
    ensures |r| == n
    ensures forall i :: 0 <= i < n ==> r[i] == i
  {
    seq(n, i requires 0 <= i < n => i)
  }

  /** No element occurs twice. */
  predicate Distinct<T(==)>(s: seq<T>)
  {
    forall i, j :: 0 <= i < j < |s| ==> s[i] != s[j]
  }

  /** An arrival order lists every index below n exactly once. */
  predicate IsArrivalOrder(order: seq<nat>, n: nat)
  {
    multiset(order) == multiset(Range(n))
  }

  /** An arrival order has n entries, each of them an index below n, and every
      index below n arrives at some position. */
  lemma ArrivalOrderBounds(order: seq<nat>, n: nat)
    requires IsArrivalOrder(order, n)
    ensures |order| == n
    ensures forall k :: 0 <= k < |order| ==> order[k] < n
    ensures forall i :: 0 <= i < n ==> i in order
  {
    assert |multiset(order)| == |multiset(Range(n))|;
    forall k | 0 <= k < |order| ensures order[k] < n {
      assert order[k] in multiset(Range(n));
    }
    forall i | 0 <= i < n ensures i in order {
      assert Range(n)[i] == i;
      assert i in multiset(order);
    }
  }

  /** Taking s[order[0]], s[order[1]], ... lists every element of s exactly as
      often as s does. */
  lemma {:induction false} Reindex<T>(s: seq<T>, order: seq<nat>, t: seq<T>)
    requires IsArrivalOrder(order, |s|)
    requires |t| == |order|
    requires forall k :: 0 <= k < |order| ==> order[k] < |s| && t[k] == s[order[k]]
    ensures multiset(t) == multiset(s)
    decreases |s|
  {
    ArrivalOrderBounds(order, |s|);
    if s != [] {
      var n := |s| - 1;
      assert n in order;
      var p :| 0 <= p < |order| && order[p] == n;
      var order', t' := RemoveAt(order, p), RemoveAt(t, p);
      RemoveAtMultiset(t, p);
      RemoveLastArrival(order, p, n);
      ArrivalOrderBounds(order', n);
      forall k | 0 <= k < |order'| ensures t'[k] == s[..n][order'[k]] {
        var k0 := if k < p then k else k + 1;
        assert order'[k] == order[k0] && t'[k] == t[k0];
      }
      Reindex(s[..n], order', t');
      assert s == s[..n] + [s[n]];
    }
  }

  /** The sequence without its element at position p. */
  function RemoveAt<T>(a: seq<T>, p: nat): (r: seq<T>)
    requires p < |a|
    ensures |r| == |a| - 1
    ensures forall k :: 0 <= k < |r| ==> r[k] == a[if k < p then k else k + 1]
  {
    a[..p] + a[p + 1..]
  }

  /** Dropping the largest index from an arrival order leaves an arrival order. */
  lemma RemoveLastArrival(order: seq<nat>, p: nat, n: nat)
    requires IsArrivalOrder(order, n + 1)
    requires p < |order| && order[p] == n
    ensures IsArrivalOrder(RemoveAt(order, p), n)
  {
    var order' := RemoveAt(order, p);
    RemoveAtMultiset(order, p);
    assert Range(n + 1) == Range(n) + [n];
    assert multiset(Range(n + 1)) == multiset(Range(n)) + multiset{n};
    forall x ensures multiset(order')[x] == multiset(Range(n))[x] {
      assert (multiset(order') + multiset{n})[x] == (multiset(Range(n)) + multiset{n})[x];
    }
  }

  lemma RemoveAtMultiset<T>(a: seq<T>, p: nat)
    requires p < |a|
    ensures multiset(a) == multiset(RemoveAt(a, p)) + multiset{a[p]}
  {
    assert a == a[..p] + [a[p]] + a[p + 1..];
  }

  /** Without duplicates, each element occurs at most once. */
  lemma {:induction false} DistinctCounts<T>(s: seq<T>, x: T)
    requires Distinct(s)
    ensures multiset(s)[x] <= 1
  {
    if s != [] {
      var init := s[..|s| - 1];
      assert s == init + [s[|s| - 1]];
      assert Distinct(init);
      DistinctCounts(init, x);
      if x == s[|s| - 1] {
        assert x !in init;
      }
    }
  }

  /** Having the same elements as a duplicate-free sequence leaves no room for
      duplicates. */
  lemma DistinctByMultiset<T>(a: seq<T>, b: seq<T>)
    requires multiset(a) == multiset(b) && Distinct(b)
    ensures Distinct(a)
  {
    forall i, j | 0 <= i < j < |a| ensures a[i] != a[j] {
      if a[i] == a[j] {
        var x := a[i];
        assert a == a[..i] + [x] + a[i + 1..j] + [x] + a[j + 1..];
        assert multiset(a)[x] >= 2;
        DistinctCounts(b, x);
      }
    }
  }
}
