/**
 What the references settle about the output, and what they leave open: two candidates with the
 same first holder, of which neither reaches the other, come out in either order, as the edges
 of the nodes happen to be ordered.
 */
module DestructChoices {
  import opened SeqSlices
  import opened Reachability
  import opened TarjanSteps
  import opened TarjanSearch
  import opened TarjanRuns
  import opened DestructOrder

  // ---- one node is numbered ahead of another -------------------------------------

  /** A node on the Tarjan stack reaches the node that is being looked at. */
  lemma StackReachesTop(g: EdgeTable, n: nat, s: State, x: nat)
    requires Inv(g, n, s) && s.dfs != [] && OnStack(s.idx, s.scc, x)
    ensures Reach(EdgesOf(g), x, Top(s.dfs).node)
  {
    hide ValidTable, LowReached, DoneVisited, DoneNumbered, DoneLow, Components, Slices, Reach;
    var es, path := EdgesOf(g), PathOf(s.dfs);
    forall i | 0 <= i < |path| ensures path[i] < |s.idx| { assert OnStack(s.idx, s.scc, path[i]); }
    BottomLowest(s.idx, s.scc, s.stack, x);
    var last := |path| - 1;
    var j := RegionExists(s.idx, s.scc, path, last, x);
    assert Mutual(es, path[j], x);
    if j < last {
      ReachTransitive(es, x, path[j], path[last]);
    }
  }

  /** `b` is not visited before `a` has its number, which is then the lower one. */
  ghost predicate AheadOf(s: State, a: nat, b: nat) {
    && Visited(s, a)
    && if Numbered(s, a) then Numbered(s, b) ==> s.scc[a] < s.scc[b] else !Visited(s, b)
  }

  lemma NumberedIsVisited(g: EdgeTable, n: nat, s: State, v: nat)
    requires Inv(g, n, s) && Numbered(s, v)
    ensures Visited(s, v)
  {
  }

  lemma StepKeepsAhead(g: EdgeTable, n: nat, s: State, a: nat, b: nat)
    requires Inv(g, n, s) && InBounds(g, n, s) && s.dfs != [] && a < n && b < n
    requires AheadOf(s, a, b) && !Reach(EdgesOf(g), a, b)
    ensures AheadOf(Step(g, n, s), a, b)
  {
    hide Inv, Step, Reach;
    StepVisits(g, n, s, a);
    StepVisits(g, n, s, b);
    StepNumbers(g, n, s, a);
    StepNumbers(g, n, s, b);
    StepKeepsInv(g, n, s);
    if !Numbered(s, a) {
      assert OnStack(s.idx, s.scc, a);
      StackReachesTop(g, n, s, a);
      if Reach(EdgesOf(g), Top(s.dfs).node, b) {
        ReachTransitive(EdgesOf(g), a, Top(s.dfs).node, b);
      }
      if Numbered(Step(g, n, s), b) {
        NumberedIsVisited(g, n, Step(g, n, s), b);
      }
    }
  }

  // ---- running on ------------------------------------------------------------------

  lemma {:induction false} IterationsKeepAhead(g: EdgeTable, n: nat, s: State, r: nat, last: nat, steps: nat,
                                               k: nat, t: State, a: nat, b: nat)
    requires Running(g, n, s, r, last, steps) && Iterates(g, n, s, k, t)
    requires a < n && b < n && AheadOf(s, a, b) && !Reach(EdgesOf(g), a, b)
    ensures AheadOf(t, a, b)
    decreases k
  {
    hide Running, Inv, InBounds, Step, AheadOf, Reach;
    if k > 0 {
      StepRuns(g, n, s, r, last, steps);
      SeededOf(g, n, s, r, last, steps);
      StepKeepsAhead(g, n, s, a, b);
      IterationsKeepAhead(g, n, Step(g, n, s), r, last, steps + 1, k - 1, t, a, b);
    }
  }

  /** A new seed is started with nothing pending, so that `a` has its number. */
  lemma VisitKeepsAhead(g: EdgeTable, n: nat, s: State, r: nat, a: nat, b: nat)
    requires Inv(g, n, s) && s.dfs == [] && AheadOf(s, a, b) && r < n && s.idx[r] == -1
    requires r + 1 < |g.base| && r < |s.low| && r < |s.idx|
    ensures AheadOf(Visit(g, s, r), a, b)
  {
    BetweenSeeds(g, n, s);
    hide Inv;
  }

  lemma SeedKeepsAhead(g: EdgeTable, n: nat, r: nat, s: State, steps: nat, k: nat, t: State, a: nat, b: nat)
    requires Running(g, n, s, r, r, steps) && r < n && SeedRun(g, n, r, s, k, t)
    requires a < n && b < n && AheadOf(s, a, b) && !Reach(EdgesOf(g), a, b)
    ensures AheadOf(t, a, b)
  {
    hide Running, Iterates, Inv, Visit, AheadOf, Reach;
    SeedBounds(g, n, s, r, steps);
    if s.idx[r] == -1 {
      RunEntersSeed(g, n, s, r, steps);
      VisitKeepsAhead(g, n, s, r, a, b);
      IterationsKeepAhead(g, n, Visit(g, s, r), r, r + 1, steps, k, t, a, b);
    }
  }

  /** From where the first `r` seeds have led, the search goes on to the end, and `a` stays ahead. */
  lemma {:induction false} SeedsKeepAhead(g: EdgeTable, n: nat, r: nat, m: nat, steps: nat, s: State, a: nat, b: nat)
    returns (steps': nat, t: State)
    requires ValidTable(g, n) && r <= m <= n && Reaches(g, n, r, steps, s)
    requires a < n && b < n && AheadOf(s, a, b) && !Reach(EdgesOf(g), a, b)
    ensures Reaches(g, n, m, steps', t) && AheadOf(t, a, b)
    decreases m - r
  {
    hide Running, Reaches, SeedRun, ValidTable, AheadOf, Reach;
    if r == m {
      steps', t := steps, s;
    } else {
      ReachedRuns(g, n, r, steps, s);
      var k, u := SeedHasEnd(g, n, r, s, steps);
      SeedKeepsAhead(g, n, r, s, steps, k, u, a, b);
      ReachesNext(g, n, r, steps, s, k, u);
      steps', t := SeedsKeepAhead(g, n, r + 1, m, steps + k, u, a, b);
    }
  }

  // ---- along the first edges -----------------------------------------------------------

  /** The first edge of each node of `p` leads to the next. */
  ghost predicate LeadsAlong(g: EdgeTable, p: seq<nat>) {
    forall i: nat :: i + 1 < |p| ==> LeadsAt(g, p, i)
  }

  ghost predicate LeadsAt(g: EdgeTable, p: seq<nat>, i: nat) {
    i + 1 < |p| && LeadsTo(g, p[i], p[i + 1])
  }

  ghost predicate LeadsTo(g: EdgeTable, u: nat, v: nat) {
    && u + 1 < |g.base| && g.base[u] < g.base[u + 1] && g.base[u] < |g.edges|
    && g.edges[g.base[u]].dst == v
  }

  ghost predicate Distinct(p: seq<nat>) {
    forall i, j :: 0 <= i < j < |p| ==> p[i] != p[j]
  }

  /** Seed `p[0]` has been followed to `p[i]`, and nothing else has been visited. */
  ghost predicate OnTheWay(g: EdgeTable, s: State, p: seq<nat>, i: nat) {
    && i < |p| && s.dfs != [] && p[i] + 1 < |g.base|
    && Top(s.dfs) == Frame(p[i], g.base[p[i]], g.base[p[i] + 1])
    && Visited(s, p[i])
    && forall v: nat :: Visited(s, v) ==> FromFirst(EdgesOf(g), p[0], v) || v in p[..i + 1]
  }

  lemma OneStepOn(g: EdgeTable, n: nat, s: State, p: seq<nat>, i: nat)
    requires Inv(g, n, s) && InBounds(g, n, s) && OnTheWay(g, s, p, i) && i + 1 < |p|
    requires LeadsAlong(g, p) && Distinct(p) && !FromFirst(EdgesOf(g), p[0], p[i + 1])
    ensures OnTheWay(g, Step(g, n, s), p, i + 1)
  {
    hide Inv, FromFirst;
    assert LeadsAt(g, p, i);
    var y := p[i + 1];
    assert y !in p[..i + 1];
    assert !Visited(s, y);
    var s' := Step(g, n, s);
    assert s' == Visit(g, s.(dfs := Advance(s.dfs)), y);
    forall v: nat | Visited(s', v) ensures FromFirst(EdgesOf(g), p[0], v) || v in p[..i + 2] {
      if v != y {
        assert Visited(s, v);
        assert v in p[..i + 1] ==> v in p[..i + 2];
      } else {
        assert p[..i + 2][i + 1] == y;
      }
    }
  }

  lemma StillSearching(g: EdgeTable, s: State, p: seq<nat>, i: nat)
    requires OnTheWay(g, s, p, i)
    ensures i < |p| && s.dfs != []
  {
  }

  /** The search goes straight to the end of the way. */
  lemma {:induction false} GoAlong(g: EdgeTable, n: nat, s: State, p: seq<nat>, i: nat, steps: nat)
    returns (k: nat, t: State)
    requires p != [] && Running(g, n, s, p[0], p[0] + 1, steps) && OnTheWay(g, s, p, i)
    requires LeadsAlong(g, p) && Distinct(p)
    requires forall j :: 0 < j < |p| ==> !FromFirst(EdgesOf(g), p[0], p[j])
    ensures Iterates(g, n, s, k, t) && OnTheWay(g, t, p, |p| - 1)
    decreases |p| - i
  {
    hide Running, Inv, InBounds, Step, FromFirst, LeadsAlong, OnTheWay, Distinct;
    StillSearching(g, s, p, i);
    if i == |p| - 1 {
      k, t := 0, s;
    } else {
      StepRuns(g, n, s, p[0], p[0] + 1, steps);
      SeededOf(g, n, s, p[0], p[0] + 1, steps);
      OneStepOn(g, n, s, p, i);
      k, t := GoAlong(g, n, Step(g, n, s), p, i + 1, steps + 1);
      k := k + 1;
    }
  }

  lemma FirstSeedOnTheWay(g: EdgeTable, n: nat, s: State, p: seq<nat>)
    requires p != [] && Seeded(g, n, s, p[0], p[0]) && s.dfs == [] && p[0] < n && s.idx[p[0]] == -1
    requires p[0] + 1 < |g.base| && p[0] < |s.low| && p[0] < |s.idx|
    ensures OnTheWay(g, Visit(g, s, p[0]), p, 0)
  {
    hide Inv, FromFirst;
    var s' := Visit(g, s, p[0]);
    forall v: nat | Visited(s', v) ensures FromFirst(EdgesOf(g), p[0], v) || v in p[..1] {
      assert v == p[0] || Visited(s, v);
    }
  }

  lemma EndIsAhead(g: EdgeTable, n: nat, s: State, p: seq<nat>, b: nat)
    requires p != [] && Inv(g, n, s) && OnTheWay(g, s, p, |p| - 1)
    requires !FromFirst(EdgesOf(g), p[0], b) && b !in p
    ensures AheadOf(s, p[|p| - 1], b)
  {
    hide FromFirst, ValidTable, StackOrder, Connected, LowReached, DoneVisited, DoneNumbered, DoneLow, Components, Slices;
    assert p[..|p|] == p;
    assert OnStack(s.idx, s.scc, PathOf(s.dfs)[|s.dfs| - 1]);
  }

  /** Seed `p[0]` is searched along the way first, so that the end of the way is ahead of `b`. */
  lemma SeedAhead(g: EdgeTable, n: nat, p: seq<nat>, b: nat, s: State, steps: nat) returns (k: nat, t: State)
    requires p != [] && Running(g, n, s, p[0], p[0], steps) && s.dfs == [] && p[0] < n
    requires LeadsAlong(g, p) && Distinct(p) && b !in p && p[|p| - 1] < n && b < n
    requires forall j :: 0 <= j < |p| ==> !FromFirst(EdgesOf(g), p[0], p[j])
    requires !FromFirst(EdgesOf(g), p[0], b) && !Reach(EdgesOf(g), p[|p| - 1], b)
    ensures SeedRun(g, n, p[0], s, k, t) && AheadOf(t, p[|p| - 1], b)
  {
    hide Running, Inv, Visit, AheadOf, OnTheWay, FromFirst, LeadsAlong, Reach, Iterates, Seeded;
    var a, r := p[|p| - 1], p[0];
    SeedBounds(g, n, s, r, steps);
    SeedIsNew(g, n, s, r, steps);
    RunEntersSeed(g, n, s, r, steps);
    SeededOf(g, n, s, r, r, steps);
    FirstSeedOnTheWay(g, n, s, p);
    var start := Visit(g, s, r);
    var i, u := GoAlong(g, n, start, p, 0, steps);
    IterationsRun(g, n, start, r, r + 1, steps, i, u);
    SeededOf(g, n, u, r, r + 1, steps + i);
    EndIsAhead(g, n, u, p, b);
    var j;
    j, t := IterationsEnd(g, n, u, r, r + 1, steps + i);
    IterationsKeepAhead(g, n, u, r, r + 1, steps + i, j, t, a, b);
    IteratesJoin(g, n, start, i, u, j, t);
    k := i + j;
  }

  /** With the way along first edges, the search ends with the end of the way numbered ahead of `b`. */
  lemma SearchAhead(g: EdgeTable, n: nat, m: nat, p: seq<nat>, b: nat) returns (steps: nat, t: State)
    requires ValidTable(g, n) && m <= n && p != [] && p[0] < m && p[|p| - 1] < n && b < n
    requires LeadsAlong(g, p) && Distinct(p) && b !in p
    requires forall j :: 0 <= j < |p| ==> !FromFirst(EdgesOf(g), p[0], p[j])
    requires !FromFirst(EdgesOf(g), p[0], b) && !Reach(EdgesOf(g), p[|p| - 1], b)
    ensures Reaches(g, n, m, steps, t) && AheadOf(t, p[|p| - 1], b)
  {
    hide Running, Reaches, SeedRun, AheadOf, ValidTable, FromFirst, LeadsAlong, Reach;
    var r := p[0];
    var k, s := SearchReaches(g, n, r);
    ReachedRuns(g, n, r, k, s);
    var l, u := SeedAhead(g, n, p, b, s, k);
    ReachesNext(g, n, r, k, s, l, u);
    steps, t := SeedsKeepAhead(g, n, r + 1, m, k + l, u, p[|p| - 1], b);
  }

  lemma SeededOf(g: EdgeTable, n: nat, s: State, r: nat, last: nat, steps: nat)
    requires Running(g, n, s, r, last, steps)
    ensures Seeded(g, n, s, r, last) && Inv(g, n, s)
  {
  }

  lemma SeedIsNew(g: EdgeTable, n: nat, s: State, k: nat, steps: nat)
    requires Running(g, n, s, k, k, steps) && k < n && !FromFirst(EdgesOf(g), k, k)
    ensures s.idx[k] == -1
  {
    hide Inv, FromFirst;
    assert Visited(s, k) ==> FromFirst(EdgesOf(g), k, k);
  }

  // ---- ordering the edges of a node ----------------------------------------------------

  /** `h` holds the edges of `g`, each node's own in whatever order. */
  ghost predicate SameBuckets(g: EdgeTable, h: EdgeTable, n: nat) {
    ValidTable(h, n) && h.base == g.base && EdgesOf(h) == EdgesOf(g)
  }

  lemma SwapConserves<T>(s: seq<T>, i: nat, j: nat)
    requires i < |s| && j < |s|
    ensures multiset(s[i := s[j]][j := s[i]]) == multiset(s)
  {
  }

  ghost function SwapEdges(g: EdgeTable, i: nat, j: nat): EdgeTable
    requires i < |g.edges| && j < |g.edges|
  {
    g.(edges := g.edges[i := g.edges[j]][j := g.edges[i]])
  }

  lemma SwapKeepsBuckets(g: EdgeTable, n: nat, i: nat, j: nat)
    requires ValidTable(g, n) && i < |g.edges| && j < |g.edges| && g.edges[i].src == g.edges[j].src
    ensures SameBuckets(g, SwapEdges(g, i, j), n)
  {
    SwapConserves(g.edges, i, j);
    var h := SwapEdges(g, i, j);
    forall e | 0 <= e < |h.edges|
      ensures h.edges[e].src < n && h.edges[e].dst < n && InSlice(h, h.edges[e].src, e)
    {
      var e' := if e == i then j else if e == j then i else e;
      assert h.edges[e] == g.edges[e'] && InSlice(g, g.edges[e].src, e);
    }
  }

  /** The first edge of another node is not touched. */
  lemma SwapElsewhere(g: EdgeTable, n: nat, u: nat, i: nat, j: nat, w: nat, z: nat)
    requires ValidTable(g, n) && i < |g.edges| && j < |g.edges| && g.edges[i].src == g.edges[j].src == u
    requires w != u && LeadsTo(g, w, z)
    ensures LeadsTo(SwapEdges(g, i, j), w, z)
  {
    SliceSource(g, n, w, g.base[w]);
  }

  lemma FirstEdge(g: EdgeTable, n: nat, u: nat, v: nat) returns (e: nat)
    requires ValidTable(g, n) && Edge(u, v) in EdgesOf(g)
    ensures e < |g.edges| && g.edges[e] == Edge(u, v)
    ensures u + 1 < |g.base| && g.base[u] < g.base[u + 1] && g.base[u] < |g.edges| && g.edges[g.base[u]].src == u
  {
    e :| e < |g.edges| && g.edges[e] == Edge(u, v);
    assert InSlice(g, u, e);
    SliceSource(g, n, u, g.base[u]);
  }

  /** Some order of the edges of `u` starts with the one to `v`, those of other nodes staying as they are. */
  lemma BringFirst(g: EdgeTable, n: nat, u: nat, v: nat) returns (h: EdgeTable)
    requires ValidTable(g, n) && Edge(u, v) in EdgesOf(g)
    ensures SameBuckets(g, h, n) && LeadsTo(h, u, v)
    ensures forall w: nat, z: nat :: w != u && LeadsTo(g, w, z) ==> LeadsTo(h, w, z)
  {
    hide ValidTable;
    var e := FirstEdge(g, n, u, v);
    h := SwapEdges(g, g.base[u], e);
    SwapKeepsBuckets(g, n, g.base[u], e);
    assert LeadsTo(h, u, v);
    hide LeadsTo, SwapEdges;
    forall w: nat, z: nat | w != u && LeadsTo(g, w, z) ensures LeadsTo(h, w, z) {
      SwapElsewhere(g, n, u, g.base[u], e, w, z);
    }
  }

  /** Consecutive nodes of `p` are joined by edges. */
  ghost predicate Walk(es: multiset<Edge>, p: seq<nat>) {
    forall i {:trigger p[i]} :: 0 <= i < |p| - 1 ==> Edge(p[i], p[i + 1]) in es
  }

  lemma WalkEdge(es: multiset<Edge>, p: seq<nat>, i: nat)
    requires Walk(es, p) && i + 1 < |p|
    ensures Edge(p[i], p[i + 1]) in es
  {
  }

  lemma LeadsStill(g: EdgeTable, h: EdgeTable, p: seq<nat>, i: nat, j: nat)
    requires Distinct(p) && i < j < |p| && LeadsAt(g, p, i)
    requires forall w: nat, z: nat :: w != p[j] && LeadsTo(g, w, z) ==> LeadsTo(h, w, z)
    ensures LeadsAt(h, p, i)
  {
    hide LeadsTo;
  }

  lemma LeadsNow(h: EdgeTable, p: seq<nat>, i: nat)
    requires i + 1 < |p| && LeadsTo(h, p[i], p[i + 1])
    ensures LeadsAt(h, p, i)
  {
  }

  lemma {:induction false} Arrange(g: EdgeTable, n: nat, p: seq<nat>, i: nat) returns (h: EdgeTable)
    requires ValidTable(g, n) && Walk(EdgesOf(g), p) && Distinct(p) && i < |p|
    ensures SameBuckets(g, h, n)
    ensures forall j: nat :: j < i ==> LeadsAt(h, p, j)
  {
    hide ValidTable, LeadsTo, LeadsAt, Walk, Distinct, EdgesOf;
    if i == 0 {
      h := g;
    } else {
      var h0 := Arrange(g, n, p, i - 1);
      WalkEdge(EdgesOf(g), p, i - 1);
      h := BringFirst(h0, n, p[i - 1], p[i]);
      forall j: nat | j < i ensures LeadsAt(h, p, j) {
        if j < i - 1 {
          assert LeadsAt(h0, p, j);
          LeadsStill(h0, h, p, j, i - 1);
        } else {
          LeadsNow(h, p, j);
        }
      }
    }
  }

  // ---- ways without repetition ---------------------------------------------------------

  lemma {:induction false} SimpleWalk(es: multiset<Edge>, u: nat, via: seq<nat>, v: nat) returns (p: seq<nat>)
    requires Path(es, u, via, v)
    ensures p != [] && p[0] == u && p[|p| - 1] == v && Walk(es, p) && Distinct(p)
    decreases |via|
  {
    if via == [] {
      p := [u];
    } else {
      var q := SimpleWalk(es, via[0], via[1..], v);
      if u in q {
        var i :| 0 <= i < |q| && q[i] == u;
        p := q[i..];
      } else {
        p := [u] + q;
      }
    }
  }

  lemma {:induction false} WalkReachesEnd(es: multiset<Edge>, p: seq<nat>, i: nat)
    requires Walk(es, p) && i < |p|
    ensures Reach(es, p[i], p[|p| - 1])
    decreases |p| - i
  {
    if i == |p| - 1 {
      ReachSelf(es, p[i]);
    } else {
      ReachEdge(es, p[i], p[i + 1]);
      WalkReachesEnd(es, p, i + 1);
      ReachTransitive(es, p[i], p[i + 1], p[|p| - 1]);
    }
  }

  lemma HolderReaches(es: multiset<Edge>, k: nat, v: nat)
    requires FirstHolder(es, k, v)
    ensures Reach(es, k, v)
  {
    hide Reach;
  }

  /** What leads to a node without being reached by it is held no earlier, and is another node. */
  lemma NotHeldEarlier(es: multiset<Edge>, k: nat, a: nat, b: nat, v: nat)
    requires FirstHolder(es, k, a) && !Reach(es, b, a) && Reach(es, v, a)
    ensures !FromFirst(es, k, v) && v != b
  {
    hide Reach;
    if FromFirst(es, k, v) {
      var c: nat :| c < k && Reach(es, c, v);
      ReachTransitive(es, c, v, a);
    }
  }

  /**
   What the references leave open between candidates with the same first holder: if neither
   reaches the other, the search lists either first for some order of the edges within the nodes.
   */
  lemma EitherOrderArises(g: EdgeTable, n: nat, m: nat, k: nat, a: nat, b: nat)
    returns (h: EdgeTable, steps: nat, t: State)
    requires ValidTable(g, n) && a < m && b < m && m <= n
    requires FirstHolder(EdgesOf(g), k, a) && FirstHolder(EdgesOf(g), k, b)
    requires !Reach(EdgesOf(g), a, b) && !Reach(EdgesOf(g), b, a)
    ensures SameBuckets(g, h, n) && Reaches(h, n, m, steps, t)
    ensures forall order :: EmitOrder(t.scc, m, order) ==> Before(order, b, a)
  {
    var es := EdgesOf(g);
    HolderReaches(es, k, a);
    FirstHolderAtMost(es, k, a);
    var via :| Path(es, k, via, a);
    var p := SimpleWalk(es, k, via, a);
    forall j | 0 <= j < |p| ensures !FromFirst(es, k, p[j]) && p[j] != b {
      WalkReachesEnd(es, p, j);
      NotHeldEarlier(es, k, a, b, p[j]);
    }
    h := Arrange(g, n, p, |p| - 1);
    hide FromFirst, Reach, LeadsAt, Walk, Distinct, EmitOrder, Reaches, AheadOf;
    steps, t := SearchAhead(h, n, m, p, b);
    AheadIsLater(h, n, steps, t, m, a, b);
  }

  /** What the search numbers first is listed last. */
  lemma AheadIsLater(g: EdgeTable, n: nat, steps: nat, t: State, m: nat, a: nat, b: nat)
    requires ValidTable(g, n) && m <= n && Reaches(g, n, m, steps, t) && AheadOf(t, a, b) && a < m && b < m
    ensures forall order :: EmitOrder(t.scc, m, order) ==> Before(order, b, a)
  {
    hide Reaches, ValidTable, Before, EmitOrder;
    ReachedSearched(g, n, m, steps, t);
    CandidateVisited(g, n, t, m, a);
    CandidateVisited(g, n, t, m, b);
    SearchedSlices(g, n, t, m);
    hide Searched;
    forall order | EmitOrder(t.scc, m, order) ensures Before(order, b, a) {
      PrecedesIsBefore(t.scc, m, order, b, a);
    }
  }

  // ---- what the references settle --------------------------------------------------------

  /** However the edges are ordered within the nodes, the output has `a` before `b`. */
  ghost predicate AlwaysBefore(g: EdgeTable, n: nat, m: nat, a: nat, b: nat) {
    forall h, steps, t, order ::
      SameBuckets(g, h, n) && Reaches(h, n, m, steps, t) && EmitOrder(t.scc, m, order) ==> Before(order, a, b)
  }

  /** The later first holder goes first, then the owner, then the newer in a loop. */
  ghost predicate GoesFirst(es: multiset<Edge>, k: nat, a: nat, l: nat, b: nat) {
    k > l || (k == l && Reach(es, a, b) && (Reach(es, b, a) ==> a > b))
  }

  lemma FirstIsListedFirst(g: EdgeTable, n: nat, m: nat, k: nat, a: nat, l: nat, b: nat, s: State, order: seq<nat>)
    requires Searched(g, n, s, m) && EmitOrder(s.scc, m, order) && a < m && b < m
    requires FirstHolder(EdgesOf(g), k, a) && FirstHolder(EdgesOf(g), l, b) && GoesFirst(EdgesOf(g), k, a, l, b)
    ensures Before(order, a, b)
  {
    hide Reach, EmitOrder, Before, FirstHolder;
    if k > l {
      hide Searched;
      FirstHolderDecides(g, n, s, m, order, l, b, k, a);
    } else if !Reach(EdgesOf(g), b, a) {
      hide Searched;
      OwnerBeforeOwned(g, n, s, m, order, a, b);
    } else {
      CandidateVisited(g, n, s, m, a);
      CandidateVisited(g, n, s, m, b);
      assert s.scc[a] == s.scc[b];
      PrecedesIsBefore(s.scc, m, order, a, b);
    }
  }

  lemma FirstIsAlwaysBefore(g: EdgeTable, n: nat, m: nat, k: nat, a: nat, l: nat, b: nat)
    requires m <= n && a < m && b < m
    requires FirstHolder(EdgesOf(g), k, a) && FirstHolder(EdgesOf(g), l, b) && GoesFirst(EdgesOf(g), k, a, l, b)
    ensures AlwaysBefore(g, n, m, a, b)
  {
    hide ValidTable, Reaches, Searched, EmitOrder, Before, FirstHolder, GoesFirst, EdgesOf;
    forall h, steps, t, order | SameBuckets(g, h, n) && Reaches(h, n, m, steps, t) && EmitOrder(t.scc, m, order)
      ensures Before(order, a, b)
    {
      ReachedSearched(h, n, m, steps, t);
      FirstIsListedFirst(h, n, m, k, a, l, b, t, order);
    }
  }

  lemma NotAlways(g: EdgeTable, n: nat, m: nat, a: nat, b: nat, h: EdgeTable, steps: nat, t: State)
    requires ValidTable(h, n) && m <= n && a < m && b < m
    requires SameBuckets(g, h, n) && Reaches(h, n, m, steps, t)
    requires forall order :: EmitOrder(t.scc, m, order) ==> Before(order, b, a)
    ensures !AlwaysBefore(g, n, m, a, b)
  {
    hide Reaches, ValidTable, Before, SameBuckets;
    ReachedSearched(h, n, m, steps, t);
    SearchedSlices(h, n, t, m);
    var order := EmitOrderExists(t.scc, m);
    assert a in order && b in order;
    NotBothBefore(order, b, a);
  }

  /**
   All that the references say about the order of two candidates: the one listed first whatever the
   order of the edges within the nodes is the one with the later first holder, or with the same one
   the owner, or in a loop the newer; and if none of these decides, the order is open.
   */
  lemma OrderSettled(g: EdgeTable, n: nat, m: nat, k: nat, a: nat, l: nat, b: nat)
    requires ValidTable(g, n) && m <= n && a < m && b < m && a != b
    requires FirstHolder(EdgesOf(g), k, a) && FirstHolder(EdgesOf(g), l, b)
    ensures AlwaysBefore(g, n, m, a, b) <==> GoesFirst(EdgesOf(g), k, a, l, b)
  {
    hide ValidTable, Reaches, EmitOrder, Before, FirstHolder, AlwaysBefore, Reach, EdgesOf;
    if GoesFirst(EdgesOf(g), k, a, l, b) {
      FirstIsAlwaysBefore(g, n, m, k, a, l, b);
    } else if GoesFirst(EdgesOf(g), l, b, k, a) {
      FirstIsAlwaysBefore(g, n, m, l, b, k, a);
      var steps, t := SearchReaches(g, n, m);
      AlwaysHere(g, n, m, b, a, steps, t);
      NotAlways(g, n, m, a, b, g, steps, t);
    } else {
      var h, steps, t := EitherOrderArises(g, n, m, k, a, b);
      NotAlways(g, n, m, a, b, h, steps, t);
    }
  }

  lemma AlwaysHere(g: EdgeTable, n: nat, m: nat, a: nat, b: nat, steps: nat, t: State)
    requires ValidTable(g, n) && AlwaysBefore(g, n, m, a, b) && Reaches(g, n, m, steps, t)
    ensures SameBuckets(g, g, n)
    ensures forall order :: EmitOrder(t.scc, m, order) ==> Before(order, a, b)
  {
    hide EmitOrder, Before, Reaches;
    assert SameBuckets(g, g, n);
  }
}
