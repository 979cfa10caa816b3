/**
 * Python's stable sort by key (`sorted(xs, key=...)`, `xs.sort(key=..., reverse=...)`), on the
 * positions of a list.
 *
 * A stable sort puts position `i` before position `j` exactly when `i`'s key is smaller, or
 * the keys are equal and `i` comes first; so its result is the unique listing of the positions
 * in that order. `reverse=True` keeps stability, so it is the same sort on negated keys.
 */
module Sorting {

  /** Position `i` goes before position `j`: smaller key, ties broken by original position. */
  predicate Before(keys: seq<int>, i: int, j: int)
    requires 0 <= i < |keys| && 0 <= j < |keys|
  {
    keys[i] < keys[j] || (keys[i] == keys[j] && i < j)
  }

  /** `order` lists every position `0 .. n-1` exactly once. */
  predicate IsIndexPermutation(order: seq<int>, n: int) {
    && |order| == n
    && (forall k :: 0 <= k < |order| ==> 0 <= order[k] < n)
    && (forall k, l :: 0 <= k < l < |order| ==> order[k] != order[l])
    && (forall i :: 0 <= i < n ==> i in order)
  }

  /** Every earlier entry of `order` goes before every later one. */
  predicate StablySorted(keys: seq<int>, order: seq<int>)
    requires forall k :: 0 <= k < |order| ==> 0 <= order[k] < |keys|
  {
    forall k, l :: 0 <= k < l < |order| ==> Before(keys, order[k], order[l])
  }

  /** The positions of `keys` in stable ascending key order (insertion sort). */
  method StableSortIndices(keys: seq<int>) returns (order: seq<int>)
    ensures IsIndexPermutation(order, |keys|)
    ensures StablySorted(keys, order)
  {
    order := [];
    var i := 0;
    while i < |keys|
      invariant 0 <= i <= |keys|
      invariant |order| == i
      invariant forall k :: 0 <= k < i ==> 0 <= order[k] < i
      invariant forall k, l :: 0 <= k < l < i ==> order[k] != order[l]
      invariant forall j :: 0 <= j < i ==> j in order
      invariant StablySorted(keys, order)
    {
      var p := 0;
      while p < |order| && keys[order[p]] <= keys[i]
        invariant 0 <= p <= |order|
        invariant forall k :: 0 <= k < p ==> keys[order[k]] <= keys[i]
      {
        p := p + 1;
      }
      // Entries from `p` on have keys above `keys[i]`: the first does, and keys never decrease.
      assert forall k :: p <= k < |order| ==> keys[order[k]] > keys[i] by {
        forall k | p <= k < |order| ensures keys[order[k]] > keys[i] {
          if p < k {
            assert Before(keys, order[p], order[k]);
          }
        }
      }
      InsertKeepsOrder(keys, order, p, i);
      var next := order[..p] + [i] + order[p..];
      order := next;
      i := i + 1;
    }
  }

  /**
   * Inserting position `i`, larger than every listed position, after the entries whose keys are
   * at most `keys[i]` and before those whose keys are larger keeps the listing stably sorted and
   * makes it list exactly the positions `0 .. i`.
   */
  lemma InsertKeepsOrder(keys: seq<int>, order: seq<int>, p: int, i: int)
    requires 0 <= p <= |order| == i < |keys|
    requires forall k :: 0 <= k < i ==> 0 <= order[k] < i
    requires forall k, l :: 0 <= k < l < i ==> order[k] != order[l]
    requires forall j :: 0 <= j < i ==> j in order
    requires StablySorted(keys, order)
    requires forall k :: 0 <= k < p ==> keys[order[k]] <= keys[i]
    requires forall k :: p <= k < |order| ==> keys[order[k]] > keys[i]
    ensures var next := order[..p] + [i] + order[p..];
      && |next| == i + 1
      && (forall k :: 0 <= k < i + 1 ==> 0 <= next[k] < i + 1)
      && (forall k, l :: 0 <= k < l < i + 1 ==> next[k] != next[l])
      && (forall j :: 0 <= j < i + 1 ==> j in next)
      && StablySorted(keys, next)
  {
    var next := order[..p] + [i] + order[p..];
    assert forall k :: 0 <= k < p ==> next[k] == order[k];
    assert next[p] == i;
    assert forall k :: p < k <= i ==> next[k] == order[k - 1];
    forall j | 0 <= j <= i ensures j in next {
      if j < i {
        assert j in order;
        var k :| 0 <= k < |order| && order[k] == j;
        if k < p {
          assert next[k] == j;
        } else {
          assert next[k + 1] == j;
        }
      }
    }
  }

  /**
   * With at least two positions, the first entry of the stable order goes before every other
   * position, and the second before every position but the first: `sorted(...)[0]` is the
   * first position of smallest key, `sorted(...)[1]` the first of smallest key among the rest.
   */
  lemma FirstTwoOfSorted(keys: seq<int>, order: seq<int>)
    requires |keys| >= 2
    requires IsIndexPermutation(order, |keys|) && StablySorted(keys, order)
    ensures forall j :: 0 <= j < |keys| && j != order[0] ==> Before(keys, order[0], j)
    ensures forall j :: 0 <= j < |keys| && j != order[0] && j != order[1] ==> Before(keys, order[1], j)
  {
    forall j | 0 <= j < |keys| && j != order[0]
      ensures Before(keys, order[0], j)
      ensures j != order[1] ==> Before(keys, order[1], j)
    {
      assert j in order;
      var k :| 0 <= k < |order| && order[k] == j;
      assert 0 < k;
    }
  }

  /** Two stably sorted listings of the same positions are equal: the stable order is unique. */
  lemma StableOrderUnique(keys: seq<int>, o1: seq<int>, o2: seq<int>)
    requires IsIndexPermutation(o1, |keys|) && StablySorted(keys, o1)
    requires IsIndexPermutation(o2, |keys|) && StablySorted(keys, o2)
    ensures o1 == o2
  {
    var k := 0;
    while k < |keys|
      invariant 0 <= k <= |keys|
      invariant forall m :: 0 <= m < k ==> o1[m] == o2[m]
    {
      var x, y := o1[k], o2[k];
      assert x in o2 && y in o1;
      var a :| 0 <= a < |o2| && o2[a] == x;
      var b :| 0 <= b < |o1| && o1[b] == y;
      // The common prefix holds neither entry, so each sits at or after position k in the other.
      assert forall m :: 0 <= m < k ==> o2[m] != x;
      assert forall m :: 0 <= m < k ==> o1[m] != y;
      assert k <= a && k <= b;
      BeforeAntisymmetric(keys, x, y);
      k := k + 1;
    }
  }

  lemma BeforeAntisymmetric(keys: seq<int>, i: int, j: int)
    requires 0 <= i < |keys| && 0 <= j < |keys|
    ensures !(Before(keys, i, j) && Before(keys, j, i))
  {
  }
}
