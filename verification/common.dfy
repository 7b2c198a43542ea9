/**
 Small building blocks shared by the scanner model: an optional value (Python's
 `None` or a value), the minimum of two naturals, Python's prefix slice `xs[:n]`,
 and the "no repeated elements" predicate.
 */
module Common {

  /** A value that may be absent, standing for Python's `None`-or-value returns. */
  datatype Option<+T> = None | Some(value: T)

  function Min(a: nat, b: nat): nat
  {
    if a <= b then a else b
  }

  /** Python's `xs[:n]`: the whole list when it is shorter than `n`. */
  function Take<T>(xs: seq<T>, n: nat): (r: seq<T>)
    ensures |r| == Min(n, |xs|)
    ensures r == xs[..|r|]
  {
    if |xs| <= n then xs else xs[..n]
  }

  /** No element occurs twice. */
  predicate NoDup<T(==)>(xs: seq<T>)
  {
    forall i, j :: 0 <= i < j < |xs| ==> xs[i] != xs[j]
  }

  /** No element occurs twice exactly when every element is counted at most once. */
  lemma {:induction false} NoDupCounts<T>(xs: seq<T>)
    ensures NoDup(xs) <==> forall x :: multiset(xs)[x] <= 1
  {
    if |xs| > 0 {
      var tail := xs[1..];
      NoDupCounts(tail);
      assert xs == [xs[0]] + tail;
      if NoDup(xs) {
        assert NoDup(tail);
        assert xs[0] !in tail;
      } else {
        var i, j :| 0 <= i < j < |xs| && xs[i] == xs[j];
        if i == 0 {
          assert tail[j - 1] == xs[0];
          assert multiset(xs)[xs[0]] >= 2;
        } else {
          assert tail[i - 1] == tail[j - 1];
          assert !NoDup(tail);
          var x :| multiset(tail)[x] > 1;
          assert multiset(xs)[x] >= multiset(tail)[x];
        }
      }
    }
  }

  /** A list holding no more copies of anything than a duplicate-free list has none twice. */
  lemma NoDupSubMultiset<T>(a: seq<T>, b: seq<T>)
    requires NoDup(b) && multiset(a) <= multiset(b)
    ensures NoDup(a)
  {
    NoDupCounts(a);
    NoDupCounts(b);
  }

  /** A duplicate-free list whose elements all equal `x` holds `x` at most once. */
  lemma NoDupSingleValue<T>(xs: seq<T>, x: T)
    requires NoDup(xs)
    requires forall y :: y in xs ==> y == x
    ensures |xs| <= 1
  {
    DistinctCard(xs);
    var elems := set y | y in xs;
    assert elems <= {x};
    if x in elems {
      assert elems == {x};
    } else {
      assert elems == {};
    }
  }

  /** The elements of a duplicate-free list are as many as its length. */
  lemma {:induction false} DistinctCard<T>(a: seq<T>)
    requires NoDup(a)
    ensures |set x | x in a| == |a|
  {
    if |a| > 0 {
      var init := a[..|a| - 1];
      var last := a[|a| - 1];
      assert NoDup(init);
      DistinctCard(init);
      assert a == init + [last];
      assert (set x | x in a) == (set x | x in init) + {last};
      assert last !in (set x | x in init);
    }
  }

  /** Whatever a sub-multiset's list holds, the larger list holds too. */
  lemma SubMultisetMembers<T>(a: seq<T>, b: seq<T>)
    requires multiset(a) <= multiset(b)
    ensures forall x :: x in a ==> x in b
  {
    forall x | x in a ensures x in b {
      assert x in multiset(a);
    }
  }
}
