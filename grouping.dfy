/**
 * Order-preserving grouping of a flat sequence by a key: the reference definition that the
 * search and list folds are proved against. Elements are processed left to right, the way the
 * use cases fill an insertion-ordered `Map`.
 */
module Grouping {

  /** The distinct keys of `xs`, each in the position where it is first seen. */
  function FirstSeen<T, K(==)>(xs: seq<T>, key: T -> K): seq<K>
  {
    if xs == [] then []
    else
      var ks := FirstSeen(xs[..|xs| - 1], key);
      var k := key(xs[|xs| - 1]);
      if k in ks then ks else ks + [k]
  }

  /** The values of the elements of `xs` whose key is `k`, in the order of `xs`. */
  function Collect<T, K(==), V>(xs: seq<T>, key: T -> K, val: T -> V, k: K): seq<V>
  {
    if xs == [] then []
    else
      var vs := Collect(xs[..|xs| - 1], key, val, k);
      if key(xs[|xs| - 1]) == k then vs + [val(xs[|xs| - 1])] else vs
  }

  /** The position of the first element of `xs` whose key is `k`. */
  function FirstIndex<T, K(==)>(xs: seq<T>, key: T -> K, k: K): (i: nat)
    requires k in FirstSeen(xs, key)
    ensures i < |xs| && key(xs[i]) == k
    ensures forall j :: 0 <= j < i ==> key(xs[j]) != k
  {
    var init := xs[..|xs| - 1];
    if k in FirstSeen(init, key) then FirstIndex(init, key, k)
    else
      FirstSeenMembers(init, key);
      assert forall j :: 0 <= j < |init| ==> init[j] == xs[j];
      |xs| - 1
  }

  /** Sum of `size` over `gs`. */
  function SumOf<G>(gs: seq<G>, size: G -> nat): nat
  {
    if gs == [] then 0 else SumOf(gs[..|gs| - 1], size) + size(gs[|gs| - 1])
  }

  /** Total number of values collected under the keys `ks`. */
  function TotalCollected<T, K(==), V>(ks: seq<K>, xs: seq<T>, key: T -> K, val: T -> V): nat
  {
    if ks == [] then 0
    else TotalCollected(ks[..|ks| - 1], xs, key, val) + |Collect(xs, key, val, ks[|ks| - 1])|
  }

  /** No key occurs twice in `ks`. */
  predicate Distinct<K(==)>(ks: seq<K>)
  {
    forall i, j :: 0 <= i < j < |ks| ==> ks[i] != ks[j]
  }

  // ---- one step of the left-to-right fold ----

  lemma FirstSeenSnoc<T, K>(xs: seq<T>, key: T -> K, x: T)
    ensures FirstSeen(xs + [x], key)
         == if key(x) in FirstSeen(xs, key) then FirstSeen(xs, key) else FirstSeen(xs, key) + [key(x)]
  {
    assert (xs + [x])[..|xs|] == xs;
  }

  lemma CollectSnoc<T, K, V>(xs: seq<T>, key: T -> K, val: T -> V, x: T, k: K)
    ensures Collect(xs + [x], key, val, k)
         == if key(x) == k then Collect(xs, key, val, k) + [val(x)] else Collect(xs, key, val, k)
  {
    assert (xs + [x])[..|xs|] == xs;
  }

  lemma FirstIndexSnoc<T, K>(xs: seq<T>, key: T -> K, x: T, k: K)
    requires k in FirstSeen(xs + [x], key)
    ensures k in FirstSeen(xs, key) ==> FirstIndex(xs + [x], key, k) == FirstIndex(xs, key, k)
    ensures k !in FirstSeen(xs, key) ==> key(x) == k && FirstIndex(xs + [x], key, k) == |xs|
  {
    assert (xs + [x])[..|xs|] == xs;
    FirstSeenSnoc(xs, key, x);
  }

  // ---- properties of the reference definition ----

  /** A key is first-seen exactly when some element carries it. */
  lemma {:induction false} FirstSeenMembers<T, K>(xs: seq<T>, key: T -> K)
    ensures forall i :: 0 <= i < |xs| ==> key(xs[i]) in FirstSeen(xs, key)
    ensures forall k :: k in FirstSeen(xs, key) ==> exists i :: 0 <= i < |xs| && key(xs[i]) == k
    decreases |xs|
  {
    if xs != [] {
      var init := xs[..|xs| - 1];
      var x := xs[|xs| - 1];
      FirstSeenMembers(init, key);
      assert xs == init + [x];
      FirstSeenSnoc(init, key, x);
      forall i | 0 <= i < |xs|
        ensures key(xs[i]) in FirstSeen(xs, key)
      {
        if i < |init| {
          assert xs[i] == init[i];
        }
      }
      forall k | k in FirstSeen(xs, key)
        ensures exists i :: 0 <= i < |xs| && key(xs[i]) == k
      {
        if k in FirstSeen(init, key) {
          var i :| 0 <= i < |init| && key(init[i]) == k;
          assert xs[i] == init[i];
        } else {
          assert key(xs[|xs| - 1]) == k;
        }
      }
    }
  }

  /** Every key is first-seen at most once. */
  lemma {:induction false} FirstSeenDistinct<T, K>(xs: seq<T>, key: T -> K)
    ensures Distinct(FirstSeen(xs, key))
    decreases |xs|
  {
    if xs != [] {
      var init := xs[..|xs| - 1];
      FirstSeenDistinct(init, key);
      assert xs == init + [xs[|xs| - 1]];
      FirstSeenSnoc(init, key, xs[|xs| - 1]);
    }
  }

  /** The keys appear in increasing order of their first occurrence in `xs`. */
  lemma {:induction false} FirstSeenOrder<T, K>(xs: seq<T>, key: T -> K)
    ensures forall a, b :: 0 <= a < b < |FirstSeen(xs, key)| ==>
      FirstIndex(xs, key, FirstSeen(xs, key)[a]) < FirstIndex(xs, key, FirstSeen(xs, key)[b])
    decreases |xs|
  {
    if xs != [] {
      var init := xs[..|xs| - 1];
      var x := xs[|xs| - 1];
      FirstSeenOrder(init, key);
      assert xs == init + [x];
      FirstSeenSnoc(init, key, x);
      var ks := FirstSeen(xs, key);
      forall a, b | 0 <= a < b < |ks|
        ensures FirstIndex(xs, key, ks[a]) < FirstIndex(xs, key, ks[b])
      {
        FirstIndexSnoc(init, key, x, ks[a]);
        FirstIndexSnoc(init, key, x, ks[b]);
      }
    }
  }

  /** A key that is never seen collects nothing. */
  lemma {:induction false} CollectUnseen<T, K, V>(xs: seq<T>, key: T -> K, val: T -> V, k: K)
    requires k !in FirstSeen(xs, key)
    ensures Collect(xs, key, val, k) == []
    decreases |xs|
  {
    if xs != [] {
      var init := xs[..|xs| - 1];
      assert xs == init + [xs[|xs| - 1]];
      FirstSeenSnoc(init, key, xs[|xs| - 1]);
      CollectSnoc(init, key, val, xs[|xs| - 1], k);
      CollectUnseen(init, key, val, k);
    }
  }

  /** Appending one element adds one value to the total of a distinct key list exactly when its key is listed. */
  lemma {:induction false} TotalCollectedSnoc<T, K, V>(ks: seq<K>, xs: seq<T>, key: T -> K, val: T -> V, x: T)
    requires Distinct(ks)
    ensures TotalCollected(ks, xs + [x], key, val)
         == TotalCollected(ks, xs, key, val) + (if key(x) in ks then 1 else 0)
    decreases |ks|
  {
    if ks != [] {
      var init := ks[..|ks| - 1];
      var last := ks[|ks| - 1];
      assert ks == init + [last];
      assert Distinct(init);
      TotalCollectedSnoc(init, xs, key, val, x);
      CollectSnoc(xs, key, val, x, last);
      assert last !in init;
      assert (key(x) in ks) == (key(x) in init || key(x) == last);
    }
  }

  /** Grouping loses and duplicates nothing: the group sizes add up to the number of elements. */
  lemma {:induction false} GroupSizesSum<T, K, V>(xs: seq<T>, key: T -> K, val: T -> V)
    ensures TotalCollected(FirstSeen(xs, key), xs, key, val) == |xs|
    decreases |xs|
  {
    if xs != [] {
      var init := xs[..|xs| - 1];
      var x := xs[|xs| - 1];
      assert xs == init + [x];
      GroupSizesSum(init, key, val);
      FirstSeenSnoc(init, key, x);
      FirstSeenDistinct(init, key);
      var ks := FirstSeen(init, key);
      TotalCollectedSnoc(ks, init, key, val, x);
      if key(x) !in ks {
        CollectUnseen(init, key, val, key(x));
        CollectSnoc(init, key, val, x, key(x));
        assert (ks + [key(x)])[..|ks|] == ks;
      }
    }
  }

  /** A sum over groups that mirror the keys one to one equals the total collected under the keys. */
  lemma {:induction false} SumOfMatches<G, T, K, V>(gs: seq<G>, size: G -> nat, ks: seq<K>, xs: seq<T>, key: T -> K, val: T -> V)
    requires |gs| == |ks|
    requires forall j :: 0 <= j < |ks| ==> size(gs[j]) == |Collect(xs, key, val, ks[j])|
    ensures SumOf(gs, size) == TotalCollected(ks, xs, key, val)
    decreases |gs|
  {
    if gs != [] {
      SumOfMatches(gs[..|gs| - 1], size, ks[..|ks| - 1], xs, key, val);
    }
  }

  /** Two keyings that select the same elements collect the same values. */
  lemma {:induction false} CollectSameSelection<T, K, L, V>(xs: seq<T>, key: T -> K, k: K, other: T -> L, l: L, val: T -> V)
    requires forall i :: 0 <= i < |xs| ==> (key(xs[i]) == k <==> other(xs[i]) == l)
    ensures Collect(xs, key, val, k) == Collect(xs, other, val, l)
    decreases |xs|
  {
    if xs != [] {
      var init := xs[..|xs| - 1];
      assert forall i :: 0 <= i < |init| ==> init[i] == xs[i];
      CollectSameSelection(init, key, k, other, l, val);
    }
  }
}
