/**
 The order in which `DestructGraph::emit` lists the candidates, and what it means for
 the objects they stand for: an owner goes before what it owns.
 */
module DestructOrder {
  import opened SeqSlices
  import opened Reachability
  import opened TarjanSteps
  import opened TarjanSearch

  /** `order` lists the first `m` nodes, higher component first and, within one, higher node first. */
  ghost predicate EmitOrder(scc: seq<int>, m: nat, order: seq<nat>) {
    && m <= |scc|
    && |order| == m
    && (forall q :: 0 <= q < m ==> order[q] < m)
    && (forall i: nat :: i < m ==> i in order)
    && forall p, q :: 0 <= p < q < m ==> Precedes(scc, order[p], order[q])
  }

  ghost predicate Precedes(scc: seq<int>, i: nat, j: nat) {
    && i < |scc| && j < |scc|
    && (scc[i] > scc[j] || (scc[i] == scc[j] && i > j))
  }

  /** Every occurrence of `a` in `order` comes before every occurrence of `b`. */
  ghost predicate Before(order: seq<nat>, a: nat, b: nat) {
    forall p, q :: 0 <= p < |order| && 0 <= q < |order| && order[p] == a && order[q] == b ==> p < q
  }

  lemma PrecedesIsBefore(scc: seq<int>, m: nat, order: seq<nat>, a: nat, b: nat)
    requires EmitOrder(scc, m, order) && Precedes(scc, a, b)
    ensures Before(order, a, b)
  {
    forall p, q | 0 <= p < |order| && 0 <= q < |order| && order[p] == a && order[q] == b
      ensures p < q
    {
    }
  }

  lemma CandidateVisited(g: EdgeTable, n: nat, s: State, m: nat, i: nat)
    requires Searched(g, n, s, m) && i < m
    ensures Visited(s, i) && Numbered(s, i)
  {
    ReachSelf(EdgesOf(g), i);
    assert FromFirst(EdgesOf(g), m, i);
  }

  /**
   Ownership: a candidate that reaches another, through whatever nodes, and is not
   reached back, is destructed first.
   */
  lemma OwnerBeforeOwned(g: EdgeTable, n: nat, s: State, m: nat, order: seq<nat>, a: nat, b: nat)
    requires Searched(g, n, s, m) && EmitOrder(s.scc, m, order) && a < m && b < m
    requires Reach(EdgesOf(g), a, b) && !Reach(EdgesOf(g), b, a)
    ensures Before(order, a, b)
  {
    hide Reach, Slices, LaterSeedsHigher;
    CandidateVisited(g, n, s, m, a);
    CandidateVisited(g, n, s, m, b);
    assert s.scc[b] <= s.scc[a];
    assert s.scc[a] != s.scc[b];
    PrecedesIsBefore(s.scc, m, order, a, b);
  }

  /** Of two candidates, the one that only later candidates hold on to goes first. */
  lemma LaterHeldFirst(g: EdgeTable, n: nat, s: State, m: nat, order: seq<nat>, k: nat, a: nat, b: nat)
    requires Searched(g, n, s, m) && EmitOrder(s.scc, m, order) && a < m && b < m && k <= m
    requires FromFirst(EdgesOf(g), k, a) && !FromFirst(EdgesOf(g), k, b)
    ensures Before(order, b, a)
  {
    hide FromFirst, Slices, Components, Topological;
    CandidateVisited(g, n, s, m, a);
    CandidateVisited(g, n, s, m, b);
    PrecedesIsBefore(s.scc, m, order, b, a);
  }

  /** Tie-break: of two candidates, the later one goes first unless it depends on the earlier ones. */
  lemma NewestFirst(g: EdgeTable, n: nat, s: State, m: nat, order: seq<nat>, i: nat, j: nat)
    requires Searched(g, n, s, m) && EmitOrder(s.scc, m, order) && i < j < m
    requires !FromFirst(EdgesOf(g), i + 1, j)
    ensures Before(order, j, i)
  {
    hide Searched, EmitOrder;
    ReachSelf(EdgesOf(g), i);
    LaterHeldFirst(g, n, s, m, order, i + 1, i, j);
  }

  /** `k` is the first candidate that reaches `v`. */
  ghost predicate FirstHolder(es: multiset<Edge>, k: nat, v: nat) {
    FromFirst(es, k + 1, v) && !FromFirst(es, k, v)
  }

  lemma FirstHolderAtMost(es: multiset<Edge>, k: nat, v: nat)
    requires FirstHolder(es, k, v)
    ensures k <= v
  {
    ReachSelf(es, v);
    assert FromFirst(es, v + 1, v);
  }

  /** Every candidate has a first holder, if only itself. */
  lemma {:induction false} FirstHolderExists(es: multiset<Edge>, v: nat, r: nat) returns (k: nat)
    requires FromFirst(es, r, v)
    ensures FirstHolder(es, k, v)
  {
    hide Reach;
    if FromFirst(es, r - 1, v) {
      k := FirstHolderExists(es, v, r - 1);
    } else {
      k := r - 1;
    }
  }

  lemma NotFromFirst(es: multiset<Edge>, r: nat, r': nat, v: nat)
    requires r <= r' && !FromFirst(es, r', v)
    ensures !FromFirst(es, r, v)
  {
  }

  lemma NotBothBefore(order: seq<nat>, a: nat, b: nat)
    requires a in order && b in order && Before(order, a, b)
    ensures !Before(order, b, a)
  {
    var p :| 0 <= p < |order| && order[p] == a;
    var q :| 0 <= q < |order| && order[q] == b;
    assert p < q;
  }

  /** Candidates with different first holders go by these, the later one first. */
  lemma FirstHolderDecides(g: EdgeTable, n: nat, s: State, m: nat, order: seq<nat>, k: nat, a: nat, l: nat, b: nat)
    requires Searched(g, n, s, m) && EmitOrder(s.scc, m, order) && a < m && b < m
    requires FirstHolder(EdgesOf(g), k, a) && FirstHolder(EdgesOf(g), l, b) && k != l
    ensures Before(order, b, a) <==> k < l
  {
    var es := EdgesOf(g);
    assert a in order && b in order;
    FirstHolderAtMost(es, k, a);
    FirstHolderAtMost(es, l, b);
    hide Searched, EmitOrder, FromFirst, Before;
    if k < l {
      NotFromFirst(es, k + 1, l, b);
      LaterHeldFirst(g, n, s, m, order, k + 1, a, b);
    } else {
      NotFromFirst(es, l + 1, k, a);
      LaterHeldFirst(g, n, s, m, order, l + 1, b, a);
      NotBothBefore(order, a, b);
    }
  }

  lemma OneHop(es: multiset<Edge>, u: nat, v: nat)
    requires es == multiset{Edge(0, 2)} && Reach(es, u, v)
    ensures u == v || (u == 0 && v == 2)
  {
    var via :| Path(es, u, via, v);
    if via != [] {
      assert Edge(u, via[0]) in es && Path(es, via[0], via[1..], v);
    }
  }

  /** The newer of two candidates does not always go first: here an older one holds on to it. */
  lemma NewerIsListedLater(g: EdgeTable, s: State, order: seq<nat>)
    requires g.edges == [Edge(0, 2)] && Searched(g, 3, s, 3) && EmitOrder(s.scc, 3, order)
    ensures FirstHolder(EdgesOf(g), 0, 2) && FirstHolder(EdgesOf(g), 1, 1)
    ensures Before(order, 1, 2) && !Before(order, 2, 1)
  {
    var es := EdgesOf(g);
    assert es == multiset{Edge(0, 2)};
    ReachEdge(es, 0, 2);
    ReachSelf(es, 1);
    if Reach(es, 0, 1) {
      OneHop(es, 0, 1);
    }
    hide Searched, EmitOrder, Before, Reach;
    assert FirstHolder(es, 0, 2);
    assert FirstHolder(es, 1, 1);
    FirstHolderDecides(g, 3, s, 3, order, 0, 2, 1, 1);
    FirstHolderDecides(g, 3, s, 3, order, 1, 1, 0, 2);
  }

  lemma NoEdgesNoReach(es: multiset<Edge>, u: nat, v: nat)
    requires es == multiset{} && Reach(es, u, v)
    ensures u == v
  {
    var via :| Path(es, u, via, v);
  }

  lemma DescendingAt(order: seq<nat>, m: nat, q: nat)
    requires |order| == m && q < m && (forall k :: 0 <= k < m ==> order[k] < m)
    requires forall k, l :: 0 <= k < l < m ==> order[k] > order[l]
    ensures order[q] == m - 1 - q
  {
    DescendingAtMost(order, m, q);
    DescendingAtLeast(order, m, q);
  }

  lemma {:induction false} DescendingAtMost(order: seq<nat>, m: nat, q: nat)
    requires |order| == m && q < m && (forall k :: 0 <= k < m ==> order[k] < m)
    requires forall k, l :: 0 <= k < l < m ==> order[k] > order[l]
    ensures order[q] <= m - 1 - q
  {
    if q > 0 {
      DescendingAtMost(order, m, q - 1);
    }
  }

  lemma {:induction false} DescendingAtLeast(order: seq<nat>, m: nat, q: nat)
    requires |order| == m && q < m
    requires forall k, l :: 0 <= k < l < m ==> order[k] > order[l]
    ensures order[q] >= m - 1 - q
    decreases m - q
  {
    if q < m - 1 {
      DescendingAtLeast(order, m, q + 1);
    }
  }

  /** Without references between them the candidates come out in reverse. */
  lemma UnrelatedReversed(g: EdgeTable, n: nat, s: State, m: nat, order: seq<nat>, q: nat)
    requires Searched(g, n, s, m) && EmitOrder(s.scc, m, order) && g.edges == [] && q < m
    ensures order[q] == m - 1 - q
  {
    forall k, l | 0 <= k < l < m
      ensures order[k] > order[l]
    {
      if order[k] < order[l] {
        if FromFirst(EdgesOf(g), order[k] + 1, order[l]) {
          var i: nat :| i < order[k] + 1 && Reach(EdgesOf(g), i, order[l]);
          NoEdgesNoReach(EdgesOf(g), i, order[l]);
        }
        NewestFirst(g, n, s, m, order, order[k], order[l]);
        assert false;
      } else {
        assert Precedes(s.scc, order[k], order[l]);
      }
    }
    DescendingAt(order, m, q);
  }

  /** The candidates of one loop stand together, in descending order. */
  lemma LoopIsBlock(g: EdgeTable, n: nat, s: State, m: nat, order: seq<nat>, p: nat, q: nat, r: nat)
    requires Searched(g, n, s, m) && EmitOrder(s.scc, m, order) && p <= q < r < m
    requires Mutual(EdgesOf(g), order[p], order[r])
    ensures Mutual(EdgesOf(g), order[p], order[q]) && order[p] >= order[q] > order[r]
  {
    ReachSelf(EdgesOf(g), order[p]);
    CandidateVisited(g, n, s, m, order[p]);
    CandidateVisited(g, n, s, m, order[q]);
    CandidateVisited(g, n, s, m, order[r]);
    assert Precedes(s.scc, order[q], order[r]) && (p < q ==> Precedes(s.scc, order[p], order[q]));
  }

  lemma NextIsLargest(scc: seq<int>, m: nat, a: seq<nat>, b: seq<nat>, k: nat)
    requires EmitOrder(scc, m, a) && EmitOrder(scc, m, b) && k < m
    requires forall i :: 0 <= i < k ==> a[i] == b[i]
    ensures a[k] == b[k] || Precedes(scc, a[k], b[k])
  {
    assert b[k] in a;
    var i :| 0 <= i < m && a[i] == b[k];
    assert i > k ==> Precedes(scc, a[k], a[i]);
  }

  /** There is only one such order: the component numbers determine the output. */
  lemma {:induction false} EmitOrderUnique(scc: seq<int>, m: nat, a: seq<nat>, b: seq<nat>, k: nat)
    requires EmitOrder(scc, m, a) && EmitOrder(scc, m, b) && k <= m
    ensures forall i :: 0 <= i < k ==> a[i] == b[i]
  {
    if k > 0 {
      EmitOrderUnique(scc, m, a, b, k - 1);
      NextIsLargest(scc, m, a, b, k - 1);
      NextIsLargest(scc, m, b, a, k - 1);
    }
  }

  lemma PlaceFor(scc: seq<int>, v: nat, order: seq<nat>, i: nat) returns (p: nat)
    requires v < |scc| && i <= |order| && forall q :: 0 <= q < |order| ==> order[q] < |scc| && order[q] != v
    requires forall p, q :: 0 <= p < q < |order| ==> Precedes(scc, order[p], order[q])
    requires forall q :: 0 <= q < i ==> Precedes(scc, order[q], v)
    ensures p <= |order|
    ensures forall q :: 0 <= q < p ==> Precedes(scc, order[q], v)
    ensures forall q :: p <= q < |order| ==> Precedes(scc, v, order[q])
    decreases |order| - i
  {
    if i == |order| || Precedes(scc, v, order[i]) {
      p := i;
    } else {
      p := PlaceFor(scc, v, order, i + 1);
    }
  }

  /** There is an output for any component numbers. */
  lemma {:induction false} EmitOrderExists(scc: seq<int>, m: nat) returns (order: seq<nat>)
    requires m <= |scc|
    ensures EmitOrder(scc, m, order)
  {
    if m == 0 {
      order := [];
    } else {
      var rest := EmitOrderExists(scc, m - 1);
      var p := PlaceFor(scc, m - 1, rest, 0);
      order := rest[..p] + [m - 1] + rest[p..];
      hide Precedes;
      forall i: nat | i < m ensures i in order {
        if i == m - 1 {
          assert order[p] == i;
        } else {
          assert i in rest;
          var q :| 0 <= q < m - 1 && rest[q] == i;
          assert order[if q < p then q else q + 1] == i;
        }
      }
    }
  }

  // ---- building the order, last component first -------------------------------------

  /** `order` lists the candidates of the components from `c` up. */
  ghost predicate ListedFrom(scc: seq<int>, m: nat, c: int, order: seq<nat>) {
    && m <= |scc|
    && (forall q :: 0 <= q < |order| ==> order[q] < m && scc[order[q]] >= c)
    && (forall i: nat :: i < m && scc[i] >= c ==> i in order)
    && forall p, q :: 0 <= p < q < |order| ==> Precedes(scc, order[p], order[q])
  }

  lemma SearchedSlices(g: EdgeTable, n: nat, t: State, m: nat)
    requires Searched(g, n, t, m)
    ensures Slices(t.scc, t.sccNodes, t.sccBase) && |t.scc| == n
  {
  }

  lemma NothingListed(scc: seq<int>, nodes: seq<nat>, base: seq<nat>, m: nat)
    requires Slices(scc, nodes, base) && m <= |scc|
    ensures ListedFrom(scc, m, |base|, [])
  {
    forall i: nat | i < m ensures scc[i] < |base| {
      if scc[i] != -1 {
        var p :| 0 <= p < |nodes| && nodes[p] == i;
      }
    }
  }

  lemma EmitOrderSize(scc: seq<int>, m: nat, order: seq<nat>)
    requires EmitOrder(scc, m, order)
    ensures |order| == m
  {
  }

  /** `seg` lists the candidates of component `c`, highest first. */
  ghost predicate ListsComponent(scc: seq<int>, m: nat, c: int, seg: seq<nat>) {
    && m <= |scc|
    && (forall q :: 0 <= q < |seg| ==> seg[q] < m && scc[seg[q]] == c)
    && (forall i: nat :: i < m && scc[i] == c ==> i in seg)
    && forall p, q :: 0 <= p < q < |seg| ==> seg[p] > seg[q]
  }

  lemma ListedBelow(scc: seq<int>, m: nat, c: int, order: seq<nat>)
    requires ListedFrom(scc, m, c, order) || ListsComponent(scc, m, c, order)
    ensures forall q :: 0 <= q < |order| ==> order[q] < m
  {
  }

  lemma ListComponent(scc: seq<int>, m: nat, c: int, order: seq<nat>, seg: seq<nat>)
    requires ListedFrom(scc, m, c + 1, order) && ListsComponent(scc, m, c, seg)
    ensures ListedFrom(scc, m, c, order + seg)
  {
    forall i: nat | i < m && scc[i] >= c
      ensures i in order + seg
    {
      assert i in order || i in seg;
    }
  }

  ghost function Members(xs: seq<nat>): set<nat> {
    set v | v in xs
  }

  lemma DistinctBound(order: seq<nat>, m: nat)
    requires forall q :: 0 <= q < |order| ==> order[q] < m
    requires forall p, q :: 0 <= p < q < |order| ==> order[p] != order[q]
    ensures |order| <= m
    ensures (forall i: nat :: i < m ==> i in order) ==> |order| == m
  {
    var members := Members(order);
    DistinctSize(order);
    SubsetSize(members, Span(0, m));
    if forall i: nat :: i < m ==> i in order {
      assert members == Span(0, m);
    }
  }

  lemma {:induction false} DistinctSize(order: seq<nat>)
    requires forall p, q :: 0 <= p < q < |order| ==> order[p] != order[q]
    ensures |Members(order)| == |order|
    decreases |order|
  {
    if order != [] {
      var init, last := order[..|order| - 1], order[|order| - 1];
      DistinctSize(init);
      assert order == init + [last];
      assert Members(order) == Members(init) + {last};
      assert last !in init;
    }
  }

  lemma {:induction false} SubsetSize(a: set<nat>, b: set<nat>)
    requires a <= b
    ensures |a| <= |b|
    decreases |a|
  {
    if a != {} {
      var x :| x in a;
      SubsetSize(a - {x}, b - {x});
    }
  }

  lemma ListedBound(scc: seq<int>, m: nat, c: int, order: seq<nat>)
    requires ListedFrom(scc, m, c, order)
    ensures |order| <= m
  {
    forall p, q | 0 <= p < q < |order| ensures order[p] != order[q] {
      assert Precedes(scc, order[p], order[q]);
    }
    DistinctBound(order, m);
  }

  lemma ListedAll(g: EdgeTable, n: nat, s: State, m: nat, order: seq<nat>)
    requires Searched(g, n, s, m) && ListedFrom(s.scc, m, 0, order)
    ensures EmitOrder(s.scc, m, order)
  {
    forall i: nat | i < m ensures i in order {
      CandidateVisited(g, n, s, m, i);
      var p :| 0 <= p < |s.sccNodes| && s.sccNodes[p] == i;
    }
    forall p, q | 0 <= p < q < |order| ensures order[p] != order[q] {
      assert Precedes(s.scc, order[p], order[q]);
    }
    DistinctBound(order, m);
  }

  // ---- the candidates of one slice ---------------------------------------------------

  /** The candidates among `nodes`, in the same order. */
  function Candidates(nodes: seq<nat>, m: nat): (r: seq<nat>)
    ensures forall q :: 0 <= q < |r| ==> r[q] < m && r[q] in nodes
    ensures forall v :: v in nodes && v < m ==> v in r
    ensures |r| <= |nodes|
    decreases |nodes|
  {
    if nodes == [] then []
    else
      var init, last := nodes[..|nodes| - 1], nodes[|nodes| - 1];
      assert nodes == init + [last];
      Candidates(init, m) + if last < m then [last] else []
  }

  lemma CandidatesOfNext(nodes: seq<nat>, lo: nat, hi: nat, m: nat)
    requires lo <= hi < |nodes|
    ensures Candidates(nodes[lo..hi + 1], m) == Candidates(nodes[lo..hi], m) + if nodes[hi] < m then [nodes[hi]] else []
  {
    assert nodes[lo..hi + 1][..hi - lo] == nodes[lo..hi];
  }

  lemma NoCandidates(nodes: seq<nat>, lo: nat, m: nat)
    requires lo <= |nodes|
    ensures Candidates(nodes[lo..lo], m) == []
  {
  }

  lemma {:induction false} CandidatesCount(nodes: seq<nat>, m: nat, v: nat)
    ensures multiset(Candidates(nodes, m))[v] <= multiset(nodes)[v]
    decreases |nodes|
  {
    if nodes != [] {
      var init, last := nodes[..|nodes| - 1], nodes[|nodes| - 1];
      InitAndLast(nodes);
      CandidatesCount(init, m, v);
      CountOfNext(init, last, v);
      if last < m {
        CountOfNext(Candidates(init, m), last, v);
      }
    }
  }

  lemma {:induction false} DistinctCount(xs: seq<nat>, v: nat)
    requires forall p, q :: 0 <= p < q < |xs| ==> xs[p] != xs[q]
    ensures multiset(xs)[v] <= 1
    decreases |xs|
  {
    if xs != [] {
      var init, last := xs[..|xs| - 1], xs[|xs| - 1];
      DistinctCount(init, v);
      assert xs == init + [last];
      assert last !in init;
    }
  }

  lemma CountDistinct(xs: seq<nat>, p: nat, q: nat)
    requires p < q < |xs| && multiset(xs)[xs[p]] <= 1
    ensures xs[p] != xs[q]
  {
    assert xs == xs[..q] + [xs[q]] + xs[q + 1..];
    assert xs[p] == xs[..q][p];
  }

  lemma SliceNumber(scc: seq<int>, nodes: seq<nat>, base: seq<nat>, c: nat, p: nat)
    requires Slices(scc, nodes, base) && c < |base|
    requires base[c] <= p < SliceEnd(base, |nodes|, c) && p < |nodes|
    ensures nodes[p] < |scc| && scc[nodes[p]] == c
  {
  }

  lemma SliceBounds(scc: seq<int>, nodes: seq<nat>, base: seq<nat>, c: nat)
    requires Slices(scc, nodes, base) && c < |base|
    ensures base[c] <= SliceEnd(base, |nodes|, c) <= |nodes|
  {
  }

  ghost function Slice(nodes: seq<nat>, base: seq<nat>, c: nat): seq<nat>
    requires c < |base| && base[c] <= SliceEnd(base, |nodes|, c) <= |nodes|
  {
    nodes[base[c]..SliceEnd(base, |nodes|, c)]
  }

  lemma SliceMembers(scc: seq<int>, nodes: seq<nat>, base: seq<nat>, c: nat, v: nat)
    requires Slices(scc, nodes, base) && c < |base|
    requires base[c] <= SliceEnd(base, |nodes|, c) <= |nodes|
    ensures v in Slice(nodes, base, c) <==> v < |scc| && scc[v] == c
  {
    var slice := Slice(nodes, base, c);
    if v in slice {
      var i :| 0 <= i < |slice| && slice[i] == v;
      SliceNumber(scc, nodes, base, c, base[c] + i);
    }
    if v < |scc| && scc[v] == c {
      var p :| 0 <= p < |nodes| && nodes[p] == v;
      assert slice[p - base[c]] == v;
    }
  }

  lemma SliceDistinct(scc: seq<int>, nodes: seq<nat>, base: seq<nat>, c: nat, v: nat)
    requires Slices(scc, nodes, base) && c < |base|
    requires base[c] <= SliceEnd(base, |nodes|, c) <= |nodes|
    ensures multiset(Slice(nodes, base, c))[v] <= 1
  {
    DistinctCount(Slice(nodes, base, c), v);
  }

  /** What sorting the compacted candidates of slice `c` yields. */
  lemma SliceListsComponent(scc: seq<int>, nodes: seq<nat>, base: seq<nat>, m: nat, c: nat, seg: seq<nat>)
    requires Slices(scc, nodes, base) && c < |base| && m <= |scc|
    requires base[c] <= SliceEnd(base, |nodes|, c) <= |nodes|
    requires multiset(seg) == multiset(Candidates(Slice(nodes, base, c), m))
    requires forall p, q :: 0 <= p < q < |seg| ==> seg[p] >= seg[q]
    ensures ListsComponent(scc, m, c, seg)
  {
    hide Slices, Slice, SliceEnd, Candidates;
    var slice := Slice(nodes, base, c);
    var cands := Candidates(slice, m);
    forall q | 0 <= q < |seg|
      ensures seg[q] < m && scc[seg[q]] == c
    {
      assert seg[q] in multiset(cands);
      SliceMembers(scc, nodes, base, c, seg[q]);
    }
    forall i: nat | i < m && scc[i] == c
      ensures i in seg
    {
      SliceMembers(scc, nodes, base, c, i);
      assert i in multiset(cands);
    }
    forall p, q | 0 <= p < q < |seg|
      ensures seg[p] > seg[q]
    {
      CandidatesCount(slice, m, seg[p]);
      SliceDistinct(scc, nodes, base, c, seg[p]);
      CountDistinct(seg, p, q);
    }
  }
}
