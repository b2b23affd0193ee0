/**
 The bucketing of edges by source that `DestructGraph::build` relies on.
 */
module CountSorting {
  import opened Reachability
  import opened SeqSlices

  /** The edges of `es` that leave node `k`, in some order. */
  ghost function Bucket(es: seq<Edge>, k: nat): (b: seq<Edge>)
    ensures forall i :: 0 <= i < |b| ==> b[i].src == k
    decreases |es|
  {
    if es == [] then []
    else
      var last := es[|es| - 1];
      Bucket(es[..|es| - 1], k) + if last.src == k then [last] else []
  }

  /** The number of edges that leave nodes below `k`. */
  ghost function Start(es: seq<Edge>, k: nat): nat {
    if k == 0 then 0 else Start(es, k - 1) + |Bucket(es, k - 1)|
  }

  ghost predicate KeysBelow(es: seq<Edge>, n: nat) {
    forall i :: 0 <= i < |es| ==> es[i].src < n
  }

  lemma {:induction false} BucketCounts(es: seq<Edge>, k: nat, x: Edge)
    ensures multiset(Bucket(es, k))[x] == if x.src == k then multiset(es)[x] else 0
    decreases |es|
  {
    if es != [] {
      BucketCounts(es[..|es| - 1], k, x);
      assert es == es[..|es| - 1] + [es[|es| - 1]];
    }
  }

  lemma {:induction false} StartSplits(es: seq<Edge>, k: nat)
    requires es != []
    ensures Start(es, k) == Start(es[..|es| - 1], k) + if es[|es| - 1].src < k then 1 else 0
  {
    if k > 0 {
      StartSplits(es, k - 1);
    }
  }

  lemma {:induction false} StartOfEmpty(k: nat)
    ensures Start([], k) == 0
  {
    if k > 0 {
      StartOfEmpty(k - 1);
    }
  }

  lemma StartOfFirst(es: seq<Edge>)
    ensures Start(es, 0) == 0
  {
  }

  lemma {:induction false} StartTotal(es: seq<Edge>, n: nat)
    requires KeysBelow(es, n)
    ensures Start(es, n) == |es|
    decreases |es|
  {
    if es == [] {
      StartOfEmpty(n);
    } else {
      StartTotal(es[..|es| - 1], n);
      StartSplits(es, n);
    }
  }

  lemma {:induction false} StartMonotone(es: seq<Edge>, j: nat, k: nat)
    requires j <= k
    ensures Start(es, j) <= Start(es, k)
    ensures j < k ==> Start(es, j) + |Bucket(es, j)| <= Start(es, k)
  {
    if j < k {
      StartMonotone(es, j, k - 1);
    }
  }

  /** Slice `k` of `sorted` starts with the edges `b`. */
  ghost predicate SliceHolds(sorted: seq<Edge>, es: seq<Edge>, k: nat, b: seq<Edge>) {
    Start(es, k) + |b| <= |sorted| && sorted[Start(es, k)..Start(es, k) + |b|] == b
  }

  /** Of the first `j` edges, those that leave `k` are in its slice. */
  ghost predicate Filled(sorted: seq<Edge>, es: seq<Edge>, j: nat, k: nat) {
    j <= |es| && SliceHolds(sorted, es, k, Bucket(es[..j], k))
  }

  ghost predicate Placed(sorted: seq<Edge>, es: seq<Edge>, n: nat, j: nat) {
    |sorted| == |es| && forall k: nat :: k < n ==> Filled(sorted, es, j, k)
  }

  lemma SliceMultiset(s: seq<Edge>, lo: nat, b: seq<Edge>)
    requires lo + |b| <= |s| && s[lo..lo + |b|] == b
    ensures multiset(s[..lo + |b|]) == multiset(s[..lo]) + multiset(b)
  {
    assert s[..lo + |b|] == s[..lo] + b;
  }

  lemma FilledPrefix(sorted: seq<Edge>, es: seq<Edge>, k: nat, x: Edge)
    requires |sorted| == |es| && Filled(sorted, es, |es|, k)
    ensures Start(es, k) <= Start(es, k + 1) <= |sorted|
    ensures multiset(sorted[..Start(es, k + 1)])[x] ==
            multiset(sorted[..Start(es, k)])[x] + if x.src == k then multiset(es)[x] else 0
  {
    assert es[..|es|] == es;
    SliceMultiset(sorted, Start(es, k), Bucket(es, k));
    BucketCounts(es, k, x);
  }

  lemma {:induction false} PlacedPrefix(sorted: seq<Edge>, es: seq<Edge>, n: nat, k: nat, x: Edge)
    requires Placed(sorted, es, n, |es|) && k <= n
    ensures Start(es, k) <= |sorted|
    ensures multiset(sorted[..Start(es, k)])[x] == if x.src < k then multiset(es)[x] else 0
  {
    if k > 0 {
      hide Start, Bucket;
      assert Filled(sorted, es, |es|, k - 1);
      PlacedPrefix(sorted, es, n, k - 1, x);
      FilledPrefix(sorted, es, k - 1, x);
    }
  }

  /** Bucketing conserves the edges. */
  lemma PlacedConserves(sorted: seq<Edge>, es: seq<Edge>, n: nat)
    requires Placed(sorted, es, n, |es|) && KeysBelow(es, n)
    ensures multiset(sorted) == multiset(es)
  {
    StartTotal(es, n);
    assert sorted[..|es|] == sorted;
    forall x: Edge
      ensures multiset(sorted)[x] == multiset(es)[x]
    {
      PlacedPrefix(sorted, es, n, n, x);
      if x in es {
        var i :| 0 <= i < |es| && es[i] == x;
        assert es[i].src < n;
      } else {
        assert multiset(es)[x] == 0;
      }
    }
  }

  /** Every position lies in the slice of some node. */
  lemma {:induction false} SliceOf(es: seq<Edge>, n: nat, e: nat) returns (k: nat)
    requires e < Start(es, n)
    ensures k < n && Start(es, k) <= e < Start(es, k + 1)
  {
    if Start(es, n - 1) <= e {
      k := n - 1;
    } else {
      k := SliceOf(es, n - 1, e);
    }
  }

  lemma FilledAt(sorted: seq<Edge>, es: seq<Edge>, k: nat, e: nat)
    requires Filled(sorted, es, |es|, k) && Start(es, k) <= e < Start(es, k + 1)
    ensures e < |sorted| && sorted[e].src == k
  {
    assert es[..|es|] == es && Start(es, k + 1) == Start(es, k) + |Bucket(es, k)|;
    hide Start, Bucket;
    assert sorted[e] == sorted[Start(es, k)..Start(es, k + 1)][e - Start(es, k)];
  }

  lemma PlacedInSlices(sorted: seq<Edge>, es: seq<Edge>, n: nat)
    requires Placed(sorted, es, n, |es|) && KeysBelow(es, n)
    ensures forall e :: 0 <= e < |es| ==> Start(es, sorted[e].src) <= e < Start(es, sorted[e].src + 1)
  {
    StartTotal(es, n);
    forall e | 0 <= e < |es|
      ensures Start(es, sorted[e].src) <= e < Start(es, sorted[e].src + 1)
    {
      var k := SliceOf(es, n, e);
      FilledAt(sorted, es, k, e);
    }
  }

  // ---- the sort ------------------------------------------------------------

  lemma BucketOfNext(es: seq<Edge>, j: nat, k: nat)
    requires j < |es|
    ensures Bucket(es[..j + 1], k) == Bucket(es[..j], k) + if es[j].src == k then [es[j]] else []
  {
    assert es[..j + 1][..j] == es[..j];
  }

  lemma {:induction false} BucketPrefix(es: seq<Edge>, j: nat, k: nat)
    requires j <= |es|
    ensures |Bucket(es[..j], k)| <= |Bucket(es, k)|
    ensures j < |es| && es[j].src == k ==> |Bucket(es[..j], k)| < |Bucket(es, k)|
    decreases |es| - j
  {
    if j == |es| {
      assert es[..j] == es;
    } else {
      BucketOfNext(es, j, k);
      BucketPrefix(es, j + 1, k);
    }
  }

  /** Room for the next edge of node `k`, outside the slices of the other nodes. */
  lemma SlotIsFree(es: seq<Edge>, j: nat, k: nat, l: nat)
    requires j < |es| && es[j].src == k && k != l
    ensures var slot := Start(es, k) + |Bucket(es[..j], k)|;
            slot < Start(es, l) || Start(es, l) + |Bucket(es[..j], l)| <= slot
  {
    BucketPrefix(es, j, k);
    BucketPrefix(es, j, l);
    if k < l {
      StartMonotone(es, k, l);
    } else {
      StartMonotone(es, l, k);
    }
  }

  lemma PlaceKeepsSlice(before: seq<Edge>, after: seq<Edge>, es: seq<Edge>, j: nat, l: nat)
    requires j < |es|
    requires SliceHolds(before, es, l, Bucket(es[..j], l))
    requires var slot := Start(es, es[j].src) + |Bucket(es[..j], es[j].src)|;
             slot < |before| && after == before[slot := es[j]]
    ensures SliceHolds(after, es, l, Bucket(es[..j + 1], l))
  {
    hide Start, Bucket;
    var lo, b := Start(es, l), Bucket(es[..j], l);
    BucketOfNext(es, j, l);
    if es[j].src != l {
      SlotIsFree(es, j, es[j].src, l);
      UpdateOutside(before, Start(es, es[j].src) + |Bucket(es[..j], es[j].src)|, es[j], lo, lo + |b|);
    } else {
      UpdateBehind(before, lo, lo + |b|, es[j]);
    }
  }

  lemma SlotInRange(es: seq<Edge>, j: nat, n: nat)
    requires KeysBelow(es, n) && j < |es|
    ensures Start(es, es[j].src) + |Bucket(es[..j], es[j].src)| < |es|
  {
    StartTotal(es, n);
    BucketPrefix(es, j, es[j].src);
    StartMonotone(es, es[j].src, n);
  }

  lemma NothingPlaced(sorted: seq<Edge>, es: seq<Edge>, n: nat)
    requires |sorted| == |es| && KeysBelow(es, n)
    ensures Placed(sorted, es, n, 0)
    ensures forall k: nat :: k < n ==> |Bucket(es[..0], k)| == 0
  {
    StartTotal(es, n);
    forall k: nat | k < n ensures Filled(sorted, es, 0, k) {
      StartMonotone(es, k, n);
    }
  }

  lemma PlaceKeepsPlaced(before: seq<Edge>, after: seq<Edge>, es: seq<Edge>, n: nat, j: nat)
    requires j < |es| && Placed(before, es, n, j)
    requires var slot := Start(es, es[j].src) + |Bucket(es[..j], es[j].src)|;
             slot < |before| && after == before[slot := es[j]]
    ensures Placed(after, es, n, j + 1)
  {
    var next := j + 1;
    forall k: nat | k < n
      ensures Filled(after, es, next, k)
    {
      assert Filled(before, es, j, k);
      PlaceKeepsSlice(before, after, es, j, k);
    }
  }

  /** Counts the edges of each node. */
  method CountKeys(src: seq<Edge>, n: nat) returns (size: array<nat>)
    requires KeysBelow(src, n)
    ensures fresh(size) && size.Length == n
    ensures forall k {:trigger size[k]} :: 0 <= k < n ==> size[k] == |Bucket(src, k)|
  {
    size := new nat[n](_ => 0);
    for j := 0 to |src|
      invariant forall k {:trigger size[k]} :: 0 <= k < n ==> size[k] == |Bucket(src[..j], k)|
    {
      forall k | 0 <= k < n ensures |Bucket(src[..j + 1], k)| == |Bucket(src[..j], k)| + if src[j].src == k then 1 else 0 {
        BucketOfNext(src, j, k);
      }
      size[src[j].src] := size[src[j].src] + 1;
    }
    assert src[..|src|] == src;
  }

  /** Moves every edge to the next free place of its node. */
  method Place(dst: array<Edge>, src: seq<Edge>, next: array<nat>)
    requires dst.Length == |src| && KeysBelow(src, next.Length)
    requires forall k {:trigger next[k]} :: 0 <= k < next.Length ==> next[k] == Start(src, k)
    modifies dst, next
    ensures Placed(dst[..], src, next.Length, |src|)
  {
    hide Start, Bucket, Placed;
    var n := next.Length;
    NothingPlaced(dst[..], src, n);
    for j := 0 to |src|
      invariant forall k {:trigger next[k]} :: 0 <= k < n ==> next[k] == Start(src, k) + |Bucket(src[..j], k)|
      invariant Placed(dst[..], src, n, j)
    {
      var key := src[j].src;
      ghost var before := dst[..];
      SlotInRange(src, j, n);
      dst[next[key]] := src[j];
      PlaceKeepsPlaced(before, dst[..], src, n, j);
      forall k: nat | k < n
        ensures |Bucket(src[..j + 1], k)| == |Bucket(src[..j], k)| + if k == key then 1 else 0
      {
        BucketOfNext(src, j, k);
      }
      next[key] := next[key] + 1;
    }
  }

  /**
   Puts `src` into `dst` grouped by source node, and where each group starts into `base`.
   The order within a group is not promised.
   */
  method CountSort(dst: array<Edge>, src: seq<Edge>, base: array<nat>, maxKey: nat)
    requires dst.Length == |src| && maxKey < base.Length && KeysBelow(src, maxKey + 1)
    modifies dst, base
    ensures forall k {:trigger base[k]} :: 0 <= k <= maxKey ==> base[k] == Start(src, k)
    ensures multiset(dst[..]) == multiset(src)
    ensures forall e :: 0 <= e < |src| ==> Start(src, dst[e].src) <= e < Start(src, dst[e].src + 1)
  {
    var next := CountKeys(src, maxKey + 1);
    var start := 0;
    for k := 0 to maxKey + 1
      invariant start == Start(src, k)
      invariant forall l {:trigger base[l]} {:trigger next[l]} :: 0 <= l < k ==> base[l] == next[l] == Start(src, l)
      invariant forall l {:trigger next[l]} :: k <= l <= maxKey ==> next[l] == |Bucket(src, l)|
    {
      var size := next[k];
      base[k], next[k] := start, start;
      start := start + size;
    }
    Place(dst, src, next);
    PlacedConserves(dst[..], src, maxKey + 1);
    PlacedInSlices(dst[..], src, maxKey + 1);
  }
}
