/**
 Sort and select: `valid_proxies.sort(key=lambda x: x[0])` followed by
 `valid_proxies[:TOP_N]`. Python's `list.sort` is stable, so hits of equal latency
 stay in scan order; the sort here is an insertion sort that has the same property,
 and `StableSortUnique` shows that any stable sort by latency gives the same list.
 */
module Ranking {
  import opened Common
  import opened Probing

  /** How many hits are kept. */
  const TopN: nat := 40

  predicate SortedByLatency(xs: seq<Hit>)
  {
    forall i, j :: 0 <= i < j < |xs| ==> xs[i].latency <= xs[j].latency
  }

  /** The hits of latency `l`, in the order they occur in `xs`. */
  function WithLatency(xs: seq<Hit>, l: nat): seq<Hit>
  {
    if |xs| == 0 then []
    else (if xs[0].latency == l then [xs[0]] else []) + WithLatency(xs[1..], l)
  }

  /** The latency class of `l` holds exactly the hits of `xs` with latency `l`. */
  lemma {:induction false} WithLatencyMembers(xs: seq<Hit>, l: nat, h: Hit)
    ensures h in WithLatency(xs, l) <==> h in xs && h.latency == l
  {
    if |xs| > 0 {
      WithLatencyMembers(xs[1..], l, h);
      assert h in xs <==> h == xs[0] || h in xs[1..] by {
        assert xs == [xs[0]] + xs[1..];
      }
    }
  }

  lemma {:induction false} WithLatencyAppend(a: seq<Hit>, b: seq<Hit>, l: nat)
    ensures WithLatency(a + b, l) == WithLatency(a, l) + WithLatency(b, l)
  {
    if |a| > 0 {
      assert (a + b)[1..] == a[1..] + b;
      WithLatencyAppend(a[1..], b, l);
    } else {
      assert a + b == b;
    }
  }

  /** `r` lists the hits of `xs` sorted by latency, with each latency's hits in
      their original order: what a stable sort on the latency key produces. */
  ghost predicate IsStableSortOf(r: seq<Hit>, xs: seq<Hit>)
  {
    SortedByLatency(r) && forall l :: WithLatency(r, l) == WithLatency(xs, l)
  }

  /** Insert `h` in front of the first hit that is not faster. */
  function Insert(h: Hit, xs: seq<Hit>): (r: seq<Hit>)
    requires SortedByLatency(xs)
    ensures SortedByLatency(r)
    ensures multiset(r) == multiset(xs) + multiset{h}
    ensures |r| == |xs| + 1 && (r[0] == h || (|xs| > 0 && r[0] == xs[0]))
  {
    if |xs| == 0 || h.latency <= xs[0].latency then
      SortedCons(h, xs);
      [h] + xs
    else
      var rest := Insert(h, xs[1..]);
      assert xs == [xs[0]] + xs[1..];
      SortedCons(xs[0], rest);
      [xs[0]] + rest
  }

  /** A hit no slower than the head of a sorted list can go in front of it. */
  lemma SortedCons(x: Hit, xs: seq<Hit>)
    requires SortedByLatency(xs)
    requires |xs| == 0 || x.latency <= xs[0].latency
    ensures SortedByLatency([x] + xs)
  {
  }

  /** Insertion sort by latency. */
  function StableSort(xs: seq<Hit>): (r: seq<Hit>)
    ensures SortedByLatency(r)
    ensures multiset(r) == multiset(xs)
  {
    if |xs| == 0 then []
    else
      assert xs == [xs[0]] + xs[1..];
      Insert(xs[0], StableSort(xs[1..]))
  }

  /** Inserting `h` places it before every hit of the same latency. */
  lemma {:induction false} InsertStable(h: Hit, xs: seq<Hit>, l: nat)
    requires SortedByLatency(xs)
    ensures WithLatency(Insert(h, xs), l) == (if h.latency == l then [h] else []) + WithLatency(xs, l)
  {
    if |xs| == 0 || h.latency <= xs[0].latency {
      WithLatencyCons(h, xs, l);
    } else {
      InsertStable(h, xs[1..], l);
      InsertPast(h, xs);
      WithLatencyCons(xs[0], Insert(h, xs[1..]), l);
      WithLatencyCons(xs[0], xs[1..], l);
      assert [xs[0]] + xs[1..] == xs;
      // `xs[0]` is faster than `h`, so at most one of the two is in the class of `l`.
      assert h.latency == l ==> xs[0].latency != l;
    }
  }

  /** A hit slower than the head of a sorted list is inserted behind that head. */
  lemma InsertPast(h: Hit, xs: seq<Hit>)
    requires SortedByLatency(xs) && |xs| > 0 && xs[0].latency < h.latency
    ensures SortedByLatency(xs[1..])
    ensures Insert(h, xs) == [xs[0]] + Insert(h, xs[1..])
  {
  }

  /** The latency class of a list with a given head: the head, if it belongs, then the rest. */
  lemma WithLatencyCons(x: Hit, rest: seq<Hit>, l: nat)
    ensures WithLatency([x] + rest, l) == (if x.latency == l then [x] else []) + WithLatency(rest, l)
  {
    assert ([x] + rest)[1..] == rest;
  }

  /** The insertion sort is stable. */
  lemma {:induction false} StableSortIsStable(xs: seq<Hit>)
    ensures IsStableSortOf(StableSort(xs), xs)
  {
    if |xs| > 0 {
      StableSortIsStable(xs[1..]);
      forall l ensures WithLatency(StableSort(xs), l) == WithLatency(xs, l) {
        InsertStable(xs[0], StableSort(xs[1..]), l);
      }
    }
  }

  /** The first hit of a sorted list is no slower than any of its hits. */
  lemma SortedHeadIsMin(xs: seq<Hit>, h: Hit)
    requires SortedByLatency(xs) && h in xs
    ensures xs[0].latency <= h.latency
  {
  }

  /** Two latency-sorted lists that agree on the order of every latency class are equal. */
  lemma {:induction false} SortedStableEqual(a: seq<Hit>, b: seq<Hit>)
    requires SortedByLatency(a) && SortedByLatency(b)
    requires forall l :: WithLatency(a, l) == WithLatency(b, l)
    ensures a == b
  {
    if |a| == 0 {
      if |b| > 0 {
        WithLatencyMembers(b, b[0].latency, b[0]);
      }
    } else if |b| == 0 {
      WithLatencyMembers(a, a[0].latency, a[0]);
    } else {
      var k := a[0].latency;
      var k' := b[0].latency;
      WithLatencyMembers(b, k', b[0]);
      assert WithLatency(a, k') == WithLatency(b, k');
      WithLatencyMembers(a, k', b[0]);
      SortedHeadIsMin(a, b[0]);
      WithLatencyMembers(a, k, a[0]);
      assert WithLatency(a, k) == WithLatency(b, k);
      WithLatencyMembers(b, k, a[0]);
      SortedHeadIsMin(b, a[0]);
      TailsAgree(a, b);
      SortedStableEqual(a[1..], b[1..]);
      assert a == [a[0]] + a[1..];
      assert b == [b[0]] + b[1..];
    }
  }

  /** Lists that agree on every latency class and start with hits of the same latency
      start with the same hit, and their tails agree on every latency class. */
  lemma TailsAgree(a: seq<Hit>, b: seq<Hit>)
    requires |a| > 0 && |b| > 0 && a[0].latency == b[0].latency
    requires forall l :: WithLatency(a, l) == WithLatency(b, l)
    ensures a[0] == b[0]
    ensures forall l :: WithLatency(a[1..], l) == WithLatency(b[1..], l)
  {
    var k := a[0].latency;
    var ta := WithLatency(a[1..], k);
    var tb := WithLatency(b[1..], k);
    assert WithLatency(a, k) == [a[0]] + ta;
    assert WithLatency(b, k) == [b[0]] + tb;
    assert ([a[0]] + ta)[0] == a[0];
    assert ([b[0]] + tb)[0] == b[0];
    forall l ensures WithLatency(a[1..], l) == WithLatency(b[1..], l) {
      TailAgreesAt(a, b, l);
    }
  }

  lemma TailAgreesAt(a: seq<Hit>, b: seq<Hit>, l: nat)
    requires |a| > 0 && |b| > 0 && a[0] == b[0]
    requires WithLatency(a, l) == WithLatency(b, l)
    ensures WithLatency(a[1..], l) == WithLatency(b[1..], l)
  {
    var p := if a[0].latency == l then [a[0]] else [];
    assert WithLatency(a, l) == p + WithLatency(a[1..], l);
    assert WithLatency(b, l) == p + WithLatency(b[1..], l);
    assert (p + WithLatency(a[1..], l))[|p|..] == WithLatency(a[1..], l);
    assert (p + WithLatency(b[1..], l))[|p|..] == WithLatency(b[1..], l);
  }

  /** Every stable sort by latency yields exactly `StableSort(xs)`: the order of the
      ranking is fixed by the scan order and the latencies. */
  lemma StableSortUnique(r: seq<Hit>, xs: seq<Hit>)
    requires IsStableSortOf(r, xs)
    ensures r == StableSort(xs)
  {
    StableSortIsStable(xs);
    SortedStableEqual(r, StableSort(xs));
  }

  /** `valid_proxies.sort(...)` then `[:n]`. */
  function Select(valid: seq<Hit>, n: nat): (r: seq<Hit>)
    ensures |r| == Min(n, |valid|)
    ensures SortedByLatency(r)
    ensures multiset(r) <= multiset(valid)
    ensures forall h :: h in r ==> h in valid
  {
    var s := StableSort(valid);
    var r := Take(s, n);
    PrefixSorted(s, |r|);
    SubMultisetMembers(r, valid);
    r
  }

  /** A prefix of a sorted list is sorted and takes nothing the list does not hold. */
  lemma PrefixSorted(s: seq<Hit>, m: nat)
    requires SortedByLatency(s) && m <= |s|
    ensures SortedByLatency(s[..m])
    ensures multiset(s[..m]) <= multiset(s)
  {
    assert s == s[..m] + s[m..];
  }

  /** No hit left out of the selection is faster than a selected one. */
  lemma SelectIsBest(valid: seq<Hit>, n: nat, h: Hit, h': Hit)
    requires h in Select(valid, n)
    requires h' in multiset(valid) - multiset(Select(valid, n))
    ensures h.latency <= h'.latency
  {
    var s := StableSort(valid);
    assert Select(valid, n) == s[..Min(n, |s|)];
    SortedPrefixIsBest(s, Min(n, |s|), h, h');
  }

  /** In a sorted list, nothing after position `m` is faster than anything before it. */
  lemma SortedPrefixIsBest(s: seq<Hit>, m: nat, h: Hit, h': Hit)
    requires SortedByLatency(s) && m <= |s|
    requires h in s[..m]
    requires h' in multiset(s) - multiset(s[..m])
    ensures h.latency <= h'.latency
  {
    var rest := s[m..];
    assert s == s[..m] + rest;
    assert multiset(s) == multiset(s[..m]) + multiset(rest);
    assert h' in multiset(rest);
    var i :| 0 <= i < m && s[..m][i] == h;
    var j :| 0 <= j < |rest| && rest[j] == h';
    assert s[i] == h;
    assert s[m + j] == h';
  }

  /** Among hits of equal latency the selection keeps the earliest scanned ones,
      in scan order. */
  lemma SelectKeepsTieOrder(valid: seq<Hit>, n: nat, l: nat)
    ensures WithLatency(Select(valid, n), l) <= WithLatency(valid, l)
  {
    var s := StableSort(valid);
    var r := Select(valid, n);
    assert s == r + s[|r|..];
    WithLatencyAppend(r, s[|r|..], l);
    StableSortIsStable(valid);
  }

  /** With equal latencies the scan order decides: the same hits in another order
      can select a different one. */
  lemma TiesFollowScanOrder(a: Hit, b: Hit)
    requires a != b && a.latency == b.latency
    ensures Select([a, b], 1) == [a]
    ensures Select([b, a], 1) == [b]
  {
    SortTiedPair(a, b);
    SortTiedPair(b, a);
  }

  /** Two hits of equal latency are left in the order they come. */
  lemma SortTiedPair(a: Hit, b: Hit)
    requires a.latency == b.latency
    ensures StableSort([a, b]) == [a, b]
  {
    assert [b][1..] == [];
    assert StableSort([b]) == [b];
    assert [a, b][1..] == [b];
    assert Insert(a, [b]) == [a] + [b];
  }

  /** A latency class counts each hit of that latency as often as `xs` does. */
  lemma {:induction false} WithLatencyCount(xs: seq<Hit>, l: nat, h: Hit)
    ensures multiset(WithLatency(xs, l))[h] == if h.latency == l then multiset(xs)[h] else 0
  {
    if |xs| > 0 {
      WithLatencyCount(xs[1..], l, h);
      assert xs == [xs[0]] + xs[1..];
    }
  }

  /** Lists with the same hits have latency classes with the same hits. */
  lemma WithLatencySameHits(v1: seq<Hit>, v2: seq<Hit>, l: nat)
    requires multiset(v1) == multiset(v2)
    ensures multiset(WithLatency(v1, l)) == multiset(WithLatency(v2, l))
  {
    forall h ensures multiset(WithLatency(v1, l))[h] == multiset(WithLatency(v2, l))[h] {
      WithLatencyCount(v1, l, h);
      WithLatencyCount(v2, l, h);
    }
  }

  /** When no two hits of `xs` share a latency, each latency class has at most one hit. */
  lemma {:induction false} DistinctLatencyClass(xs: seq<Hit>, l: nat)
    requires forall i, j :: 0 <= i < j < |xs| ==> xs[i].latency != xs[j].latency
    ensures |WithLatency(xs, l)| <= 1
  {
    if |xs| > 0 {
      DistinctLatencyClass(xs[1..], l);
      if xs[0].latency == l && |WithLatency(xs[1..], l)| > 0 {
        var h := WithLatency(xs[1..], l)[0];
        WithLatencyMembers(xs[1..], l, h);
      }
    }
  }

  /** A list of at most one element is fixed by its multiset. */
  lemma ShortSeqByMultiset(a: seq<Hit>, b: seq<Hit>)
    requires |a| <= 1 && multiset(a) == multiset(b)
    ensures a == b
  {
    assert |a| == |multiset(a)| == |multiset(b)| == |b|;
    if |a| == 1 {
      assert a[0] in multiset(b);
    }
  }

  /** When no two hits share a latency, the selection depends only on which hits
      there are, not on the order they were scanned in. */
  lemma SelectOrderIndependent(v1: seq<Hit>, v2: seq<Hit>, n: nat)
    requires multiset(v1) == multiset(v2)
    requires forall i, j :: 0 <= i < j < |v1| ==> v1[i].latency != v1[j].latency
    ensures Select(v1, n) == Select(v2, n)
  {
    forall l ensures WithLatency(v1, l) == WithLatency(v2, l) {
      WithLatencySameHits(v1, v2, l);
      DistinctLatencyClass(v1, l);
      ShortSeqByMultiset(WithLatency(v1, l), WithLatency(v2, l));
    }
    StableSortIsStable(v1);
    StableSortIsStable(v2);
    SortedStableEqual(StableSort(v1), StableSort(v2));
  }
}
