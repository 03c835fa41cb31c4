/**
 The "for each item, maybe append a result" loop shape: keep the results of
 the items a step accepts, in item order.
 */
module Lists {
  import opened Options

  /** How many items of `xs` the step `f` maps to `y`. */
  ghost function Hits<A, B>(xs: seq<A>, f: A -> Option<B>, y: B): nat
    decreases |xs|
  {
    if |xs| == 0 then 0 else (if f(xs[0]) == Some(y) then 1 else 0) + Hits(xs[1..], f, y)
  }

  /** The accepted results of `f` over `xs`, in order. */
  function FilterMap<A, B(!new)>(xs: seq<A>, f: A -> Option<B>): (r: seq<B>)
    ensures |r| <= |xs|
    ensures forall y :: y in r ==> exists i :: 0 <= i < |xs| && f(xs[i]) == Some(y)
    ensures forall y :: multiset(r)[y] == Hits(xs, f, y)
    decreases |xs|
  {
    if |xs| == 0 then []
    else
      var rest := FilterMap(xs[1..], f);
      assert forall y :: y in rest ==> exists i :: 0 <= i < |xs| && f(xs[i]) == Some(y) by {
        forall y | y in rest
          ensures exists i :: 0 <= i < |xs| && f(xs[i]) == Some(y)
        {
          var i :| 0 <= i < |xs[1..]| && f(xs[1..][i]) == Some(y);
          assert xs[1..][i] == xs[i + 1];
        }
      }
      if f(xs[0]).Some? then [f(xs[0]).value] + rest else rest
  }

  /** Mapping a concatenation is concatenating the mapped parts. */
  lemma {:induction false} FilterMapAppend<A, B(!new)>(a: seq<A>, b: seq<A>, f: A -> Option<B>)
    ensures FilterMap(a + b, f) == FilterMap(a, f) + FilterMap(b, f)
    decreases |a|
  {
    if |a| > 0 {
      assert (a + b)[1..] == a[1..] + b;
      assert (a + b)[0] == a[0];
      FilterMapAppend(a[1..], b, f);
    } else {
      assert a + b == b;
    }
  }

  /** Every accepted item contributes its result. */
  lemma {:induction false} FilterMapComplete<A, B(!new)>(xs: seq<A>, f: A -> Option<B>, i: int)
    requires 0 <= i < |xs| && f(xs[i]).Some?
    ensures f(xs[i]).value in FilterMap(xs, f)
    decreases |xs|
  {
    if i > 0 {
      assert xs[1..][i - 1] == xs[i];
      FilterMapComplete(xs[1..], f, i - 1);
    }
  }

  /** The items of `xs` that `keep` accepts, in order (a list comprehension with a condition). */
  function Filter<A(!new)>(xs: seq<A>, keep: A -> bool): (r: seq<A>)
    ensures |r| <= |xs|
    ensures forall x :: x in r <==> x in xs && keep(x)
    ensures forall x :: multiset(r)[x] == if keep(x) then multiset(xs)[x] else 0
    decreases |xs|
  {
    if |xs| == 0 then []
    else
      assert forall x :: x in xs <==> x == xs[0] || x in xs[1..];
      assert xs == [xs[0]] + xs[1..];
      (if keep(xs[0]) then [xs[0]] else []) + Filter(xs[1..], keep)
  }

  /** Filtering a concatenation is concatenating the filtered parts. */
  lemma {:induction false} FilterAppend<A(!new)>(a: seq<A>, b: seq<A>, keep: A -> bool)
    ensures Filter(a + b, keep) == Filter(a, keep) + Filter(b, keep)
    decreases |a|
  {
    if |a| > 0 {
      assert (a + b)[1..] == a[1..] + b;
      assert (a + b)[0] == a[0];
      FilterAppend(a[1..], b, keep);
    } else {
      assert a + b == b;
    }
  }

  /** A filter that keeps every item is the identity. */
  lemma {:induction false} FilterKeepsAll<A(!new)>(xs: seq<A>, keep: A -> bool)
    requires forall i :: 0 <= i < |xs| ==> keep(xs[i])
    ensures Filter(xs, keep) == xs
    decreases |xs|
  {
    if |xs| > 0 {
      assert forall i :: 0 <= i < |xs[1..]| ==> keep(xs[1..][i]) by {
        forall i | 0 <= i < |xs[1..]|
          ensures keep(xs[1..][i])
        {
          assert xs[1..][i] == xs[i + 1];
        }
      }
      FilterKeepsAll(xs[1..], keep);
      assert [xs[0]] + xs[1..] == xs;
    }
  }

  /** A filter drops something exactly when some item is rejected. */
  lemma {:induction false} FilterShrinks<A(!new)>(xs: seq<A>, keep: A -> bool)
    ensures |Filter(xs, keep)| < |xs| <==> exists i :: 0 <= i < |xs| && !keep(xs[i])
    decreases |xs|
  {
    if |xs| > 0 {
      FilterShrinks(xs[1..], keep);
      if exists i :: 0 <= i < |xs[1..]| && !keep(xs[1..][i]) {
        var i :| 0 <= i < |xs[1..]| && !keep(xs[1..][i]);
        assert xs[1..][i] == xs[i + 1];
      }
      if exists i :: 0 <= i < |xs| && !keep(xs[i]) {
        var i :| 0 <= i < |xs| && !keep(xs[i]);
        if i > 0 {
          assert xs[1..][i - 1] == xs[i];
        }
      }
    }
  }

  /** No two items of `xs` share a key; items without a key are unconstrained. */
  predicate DistinctKeys<A, K(==)>(xs: seq<A>, key: A -> Option<K>) {
    forall i, j :: 0 <= i < |xs| && 0 <= j < |xs| && key(xs[i]).Some? && key(xs[i]) == key(xs[j]) ==> i == j
  }

  /** Dropping the first item keeps keys distinct. */
  lemma TailKeysDistinct<A, K>(xs: seq<A>, key: A -> Option<K>)
    requires |xs| > 0 && DistinctKeys(xs, key)
    ensures DistinctKeys(xs[1..], key)
  {
    var tail := xs[1..];
    forall i, j | 0 <= i < |tail| && 0 <= j < |tail| && key(tail[i]).Some? && key(tail[i]) == key(tail[j])
      ensures i == j
    {
      assert tail[i] == xs[i + 1] && tail[j] == xs[j + 1];
    }
  }

  /** With distinct keys, no later item shares the first item's key. */
  lemma HeadKeyUnique<A, K>(xs: seq<A>, key: A -> Option<K>)
    requires |xs| > 0 && DistinctKeys(xs, key) && key(xs[0]).Some?
    ensures forall y :: y in xs[1..] ==> key(y) != key(xs[0])
  {
    forall y | y in xs[1..]
      ensures key(y) != key(xs[0])
    {
      var j :| 0 <= j < |xs[1..]| && xs[1..][j] == y;
      assert xs[j + 1] == y;
    }
  }

  /** Filtering keeps keys distinct. */
  lemma {:induction false} FilterKeepsKeysDistinct<A(!new), K>(xs: seq<A>, keep: A -> bool, key: A -> Option<K>)
    requires DistinctKeys(xs, key)
    ensures DistinctKeys(Filter(xs, keep), key)
    decreases |xs|
  {
    if |xs| > 0 {
      var tail := xs[1..];
      TailKeysDistinct(xs, key);
      FilterKeepsKeysDistinct(tail, keep, key);
      var rest := Filter(tail, keep);
      if keep(xs[0]) && key(xs[0]).Some? {
        HeadKeyUnique(xs, key);
        assert forall y :: y in rest ==> y in tail;
        ConsKeepsKeysDistinct(xs[0], rest, key);
        assert Filter(xs, keep) == [xs[0]] + rest;
      }
    }
  }

  /** A new item whose key no other item has keeps keys distinct. */
  lemma ConsKeepsKeysDistinct<A, K>(x: A, rest: seq<A>, key: A -> Option<K>)
    requires DistinctKeys(rest, key)
    requires forall y :: y in rest ==> key(y) != key(x)
    ensures DistinctKeys([x] + rest, key)
  {
    var r := [x] + rest;
    forall k | 1 <= k < |r|
      ensures key(r[k]) != key(r[0])
    {
      assert r[k] == rest[k - 1];
      assert rest[k - 1] in rest;
    }
    forall i, j | 0 <= i < |r| && 0 <= j < |r| && key(r[i]).Some? && key(r[i]) == key(r[j])
      ensures i == j
    {
      if i > 0 && j > 0 {
        assert r[i] == rest[i - 1] && r[j] == rest[j - 1];
      }
    }
  }

  /** An item whose step result is never `y` contributes nothing to its count. */
  lemma {:induction false} NoHits<A, B>(xs: seq<A>, f: A -> Option<B>, y: B)
    requires forall i :: 0 <= i < |xs| ==> f(xs[i]) != Some(y)
    ensures Hits(xs, f, y) == 0
    decreases |xs|
  {
    if |xs| > 0 {
      assert forall i :: 0 <= i < |xs[1..]| ==> f(xs[1..][i]) != Some(y) by {
        forall i | 0 <= i < |xs[1..]|
          ensures f(xs[1..][i]) != Some(y)
        {
          assert xs[1..][i] == xs[i + 1];
        }
      }
      NoHits(xs[1..], f, y);
    }
  }

  /** With distinct keys, each key belongs to at most one item. */
  lemma {:induction false} DistinctKeysHitOnce<A, K>(xs: seq<A>, key: A -> Option<K>, k: K)
    requires DistinctKeys(xs, key)
    ensures Hits(xs, key, k) <= 1
    decreases |xs|
  {
    if |xs| > 0 {
      var tail := xs[1..];
      TailKeysDistinct(xs, key);
      if key(xs[0]) == Some(k) {
        forall i | 0 <= i < |tail|
          ensures key(tail[i]) != Some(k)
        {
          assert tail[i] == xs[i + 1];
        }
        NoHits(tail, key, k);
      } else {
        DistinctKeysHitOnce(tail, key, k);
      }
    }
  }
}
