/**
 Whole runs of the search: what is visited, in which order components are numbered,
 and how many iterations that takes.
 */
module TarjanSearch {
  import opened Reachability
  import opened TarjanSteps

  /** `v` is reachable from one of the first `r` nodes. */
  ghost predicate FromFirst(es: multiset<Edge>, r: nat, v: nat) {
    exists i: nat :: i < r && Reach(es, i, v)
  }

  // ---- what one iteration does to visited and numbered nodes ----------------

  ghost predicate Visited(s: State, v: nat) {
    v < |s.idx| && s.idx[v] != -1
  }

  ghost predicate Numbered(s: State, v: nat) {
    v < |s.scc| && s.scc[v] != -1
  }

  /** An iteration visits at most one node, one that the top frame's node has an edge to. */
  lemma StepVisits(g: EdgeTable, n: nat, s: State, v: nat)
    requires Inv(g, n, s) && InBounds(g, n, s) && s.dfs != []
    ensures Visited(s, v) ==> Visited(Step(g, n, s), v)
    ensures Visited(Step(g, n, s), v) ==>
              Visited(s, v) || (Visited(s, Top(s.dfs).node) && Reach(EdgesOf(g), Top(s.dfs).node, v))
  {
    if Top(s.dfs).edge < Top(s.dfs).end {
      TopEdge(g, n, s);
      assert OnStack(s.idx, s.scc, PathOf(s.dfs)[|s.dfs| - 1]);
    }
  }

  /** Only closing a component gives numbers. */
  lemma StepScc(g: EdgeTable, n: nat, s: State)
    requires InBounds(g, n, s) && s.dfs != []
    ensures var f := Top(s.dfs);
      Step(g, n, s).scc == if f.edge < f.end then s.scc else CloseComponent(s, f.node).scc
  {
    hide InBounds, PopScc;
  }

  /** Numbers once given stay, and a new number exceeds all given before. */
  lemma StepNumbers(g: EdgeTable, n: nat, s: State, v: nat)
    requires Inv(g, n, s) && InBounds(g, n, s) && s.dfs != [] && v < n
    ensures |Step(g, n, s).scc| == n && s.scc[v] < |s.sccBase|
    ensures Step(g, n, s).scc[v] == s.scc[v] || (s.scc[v] == -1 && Step(g, n, s).scc[v] == |s.sccBase|)
  {
    hide ValidTable, PathOnStack, FramesInTable, Connected, LowReached, DoneVisited, DoneNumbered, DoneLow, Components, Slices;
    hide Step, PopScc;
    StepScc(g, n, s);
    var u := Top(s.dfs).node;
    if Top(s.dfs).edge >= Top(s.dfs).end && s.low[u] == s.idx[u] {
      var p :| 0 <= p < |s.stack| && s.stack[p] == u;
      ClosePops(s, p);
    }
  }

  // ---- seeding from the candidates in order ----------------------------------

  ghost predicate VisitedFromFirst(es: multiset<Edge>, s: State, r: nat) {
    forall v: nat :: Visited(s, v) ==> FromFirst(es, r, v)
  }

  ghost predicate FirstNumbered(es: multiset<Edge>, s: State, r: nat) {
    forall v: nat :: FromFirst(es, r, v) ==> Numbered(s, v)
  }

  /** What only later seeds reach is numbered higher than what earlier seeds reach. */
  ghost predicate LaterSeedsHigher(es: multiset<Edge>, s: State, r: nat) {
    forall k: nat, u: nat, v: nat ::
      k <= r && FromFirst(es, k, u) && !FromFirst(es, k, v) && Numbered(s, u) && Numbered(s, v) ==> s.scc[u] < s.scc[v]
  }

  /** The first `r` seeds are done, and the search is at most in the midst of seed `last - 1`. */
  ghost predicate Seeded(g: EdgeTable, n: nat, s: State, r: nat, last: nat) {
    && r <= last <= n
    && Inv(g, n, s)
    && FirstNumbered(EdgesOf(g), s, r)
    && VisitedFromFirst(EdgesOf(g), s, last)
    && LaterSeedsHigher(EdgesOf(g), s, r)
  }

  lemma StepVisitsFromFirst(g: EdgeTable, n: nat, s: State, r: nat)
    requires Inv(g, n, s) && InBounds(g, n, s) && s.dfs != []
    requires VisitedFromFirst(EdgesOf(g), s, r)
    ensures VisitedFromFirst(EdgesOf(g), Step(g, n, s), r)
  {
    hide Inv, InBounds, Step;
    var es, u := EdgesOf(g), Top(s.dfs).node;
    forall v: nat | Visited(Step(g, n, s), v)
      ensures FromFirst(es, r, v)
    {
      StepVisits(g, n, s, v);
      if !Visited(s, v) {
        var i: nat :| i < r && Reach(es, i, u);
        ReachTransitive(es, i, u, v);
      }
    }
  }

  lemma FromFirstMonotone(es: multiset<Edge>, r: nat, r': nat, v: nat)
    requires r <= r' && FromFirst(es, r, v)
    ensures FromFirst(es, r', v)
  {
    var i: nat :| i < r && Reach(es, i, v);
  }

  lemma StepNumbersHigher(g: EdgeTable, n: nat, s: State, r: nat)
    requires Inv(g, n, s) && InBounds(g, n, s) && s.dfs != [] && r <= n
    requires FirstNumbered(EdgesOf(g), s, r) && LaterSeedsHigher(EdgesOf(g), s, r)
    ensures FirstNumbered(EdgesOf(g), Step(g, n, s), r) && LaterSeedsHigher(EdgesOf(g), Step(g, n, s), r)
  {
    hide Inv, Step, FromFirst;
    var es, s' := EdgesOf(g), Step(g, n, s);
    forall v: nat | v < n
      ensures |s'.scc| == n && s.scc[v] < |s.sccBase|
      ensures s'.scc[v] == s.scc[v] || (s.scc[v] == -1 && s'.scc[v] == |s.sccBase|)
    {
      StepNumbers(g, n, s, v);
    }
    assert |s'.scc| == n by { StepNumbers(g, n, s, Top(s.dfs).node); }
    forall k: nat, u: nat, v: nat |
      k <= r && FromFirst(es, k, u) && !FromFirst(es, k, v) && Numbered(s', u) && Numbered(s', v)
      ensures s'.scc[u] < s'.scc[v]
    {
      FromFirstMonotone(es, k, r, u);
      assert Numbered(s, u);
      if Numbered(s, v) {
        assert s.scc[u] < s.scc[v];
      }
    }
  }

  lemma StepKeepsSeeding(g: EdgeTable, n: nat, s: State, r: nat, last: nat)
    requires Seeded(g, n, s, r, last) && InBounds(g, n, s) && s.dfs != []
    ensures Seeded(g, n, Step(g, n, s), r, last)
  {
    hide Inv, Step, FirstNumbered, VisitedFromFirst, LaterSeedsHigher;
    StepKeepsInv(g, n, s);
    StepVisitsFromFirst(g, n, s, last);
    StepNumbersHigher(g, n, s, r);
  }

  /** Between two seeds nothing is pending: every visited node is numbered, and no edge leaves them. */
  lemma BetweenSeeds(g: EdgeTable, n: nat, s: State)
    requires Inv(g, n, s) && s.dfs == []
    ensures forall v: nat :: Visited(s, v) <==> Numbered(s, v)
    ensures Closed(EdgesOf(g), NumberedSet(s.scc))
  {
    NumberedClosed(g, n, s);
    forall v: nat
      ensures Visited(s, v) <==> Numbered(s, v)
    {
      assert OnStack(s.idx, s.scc, v) ==> v in s.stack;
    }
  }

  /** Starting the search of a seed not visited yet. */
  lemma SeedStarts(g: EdgeTable, n: nat, s: State, r: nat)
    requires Seeded(g, n, s, r, r) && s.dfs == [] && r < n && s.idx[r] == -1
    requires r + 1 < |g.base| && r < |s.low|
    ensures Seeded(g, n, Visit(g, s, r), r, r + 1)
  {
    SeedKeepsInv(g, n, s, r);
    hide Inv;
    var es, s' := EdgesOf(g), Visit(g, s, r);
    forall v: nat | Visited(s', v)
      ensures FromFirst(es, r + 1, v)
    {
      if v == r {
        ReachSelf(es, r);
      } else {
        assert Visited(s, v);
        FromFirstMonotone(es, r, r + 1, v);
      }
    }
    assert forall i: nat :: Numbered(s', i) == Numbered(s, i);
  }

  lemma SeedEndsNumbered(g: EdgeTable, n: nat, s: State, r: nat)
    requires FirstNumbered(EdgesOf(g), s, r) && Numbered(s, r)
    requires Closed(EdgesOf(g), NumberedSet(s.scc))
    ensures FirstNumbered(EdgesOf(g), s, r + 1)
  {
    var es := EdgesOf(g);
    forall v: nat | FromFirst(es, r + 1, v)
      ensures Numbered(s, v)
    {
      var i: nat :| i < r + 1 && Reach(es, i, v);
      if i < r {
        assert FromFirst(es, r, v);
      } else {
        ReachStaysInside(es, NumberedSet(s.scc), r, v);
      }
    }
  }

  lemma SeedEndsHigher(es: multiset<Edge>, s: State, r: nat)
    requires VisitedFromFirst(es, s, r + 1) && LaterSeedsHigher(es, s, r)
    requires forall v: nat :: Visited(s, v) <==> Numbered(s, v)
    ensures LaterSeedsHigher(es, s, r + 1)
  {
    hide FromFirst;
    forall k: nat, u: nat, v: nat |
      k <= r + 1 && FromFirst(es, k, u) && !FromFirst(es, k, v) && Numbered(s, u) && Numbered(s, v)
      ensures s.scc[u] < s.scc[v]
    {
      assert Visited(s, v);
    }
  }

  /** A seed that has been visited, by its own search or an earlier one, is done. */
  lemma SeedEnds(g: EdgeTable, n: nat, s: State, r: nat, last: nat)
    requires Seeded(g, n, s, r, last) && last <= r + 1 && s.dfs == [] && Visited(s, r)
    ensures r < n && Seeded(g, n, s, r + 1, r + 1)
  {
    BetweenSeeds(g, n, s);
    assert r < n;
    hide Inv, FromFirst, LaterSeedsHigher, FirstNumbered, Closed;
    var es := EdgesOf(g);
    forall v: nat | Visited(s, v)
      ensures FromFirst(es, r + 1, v)
    {
      FromFirstMonotone(es, last, r + 1, v);
    }
    SeedEndsNumbered(g, n, s, r);
    SeedEndsHigher(es, s, r);
  }

  // ---- how many iterations -----------------------------------------------------

  function Degree(g: EdgeTable, v: nat): int {
    if v + 1 < |g.base| then g.base[v + 1] as int - g.base[v] as int else 0
  }

  /** One iteration for each visited node among the first `k`, and one for each of its edges. */
  function WorkOfVisited(g: EdgeTable, idx: seq<int>, k: nat): int
    requires k <= |idx|
  {
    if k == 0 then 0
    else WorkOfVisited(g, idx, k - 1) + if idx[k - 1] != -1 then Degree(g, k - 1) + 1 else 0
  }

  /** The iterations the frames still account for. */
  function WorkLeft(dfs: seq<Frame>): int
    decreases |dfs|
  {
    if dfs == [] then 0 else WorkLeft(dfs[..|dfs| - 1]) + Top(dfs).end - Top(dfs).edge + 1
  }

  lemma {:induction false} WorkOfVisit(g: EdgeTable, idx: seq<int>, k: nat, v: nat, c: int)
    requires k <= |idx| && v < |idx| && idx[v] == -1 && c != -1
    ensures WorkOfVisited(g, idx[v := c], k) == WorkOfVisited(g, idx, k) + if v < k then Degree(g, v) + 1 else 0
  {
    if k > 0 {
      WorkOfVisit(g, idx, k - 1, v, c);
    }
  }

  lemma {:induction false} NoWorkYet(g: EdgeTable, n: nat, k: nat)
    requires k <= n
    ensures WorkOfVisited(g, Initial(n).idx, k) == 0
  {
    if k > 0 {
      NoWorkYet(g, n, k - 1);
    }
  }

  lemma VisitWork(g: EdgeTable, n: nat, s: State, v: nat)
    requires |g.base| == n + 1 && |s.idx| == |s.low| == n && v < n && s.idx[v] == -1
    ensures var s' := Visit(g, s, v);
            WorkLeft(s'.dfs) - WorkLeft(s.dfs) == WorkOfVisited(g, s'.idx, n) - WorkOfVisited(g, s.idx, n)
  {
    var s' := Visit(g, s, v);
    assert s'.dfs[..|s.dfs|] == s.dfs;
    WorkOfVisit(g, s.idx, n, v, s.counter);
  }

  lemma AdvanceWork(dfs: seq<Frame>)
    requires dfs != []
    ensures WorkLeft(Advance(dfs)) == WorkLeft(dfs) - 1
  {
    var t := |dfs| - 1;
    assert Advance(dfs)[..t] == dfs[..t];
  }

  /** Each iteration does one unit of the work of the nodes visited. */
  lemma StepWork(g: EdgeTable, n: nat, s: State)
    requires InBounds(g, n, s) && s.dfs != [] && Top(s.dfs).edge <= Top(s.dfs).end
    ensures var s' := Step(g, n, s);
            |s'.idx| == n &&
            WorkLeft(s'.dfs) + 1 - WorkLeft(s.dfs) == WorkOfVisited(g, s'.idx, n) - WorkOfVisited(g, s.idx, n)
  {
    AdvanceWork(s.dfs);
    if Top(s.dfs).edge < Top(s.dfs).end {
      var y := g.edges[Top(s.dfs).edge].dst;
      if s.idx[y] == -1 {
        VisitWork(g, n, s.(dfs := Advance(s.dfs)), y);
      }
    }
  }

  lemma {:induction false} WorkBound(g: EdgeTable, n: nat, idx: seq<int>, k: nat)
    requires ValidTable(g, n) && |idx| == n && k <= n
    ensures WorkOfVisited(g, idx, k) <= g.base[k] + k
  {
    if k > 0 {
      WorkBound(g, n, idx, k - 1);
    }
  }

  lemma {:induction false} WorkLeftPositive(g: EdgeTable, dfs: seq<Frame>)
    requires FramesInTable(g, dfs)
    ensures WorkLeft(dfs) >= |dfs|
    decreases |dfs|
  {
    if dfs != [] {
      WorkLeftPositive(g, dfs[..|dfs| - 1]);
    }
  }

  /** The search of seed `last - 1` after `steps` iterations in all. */
  ghost predicate Running(g: EdgeTable, n: nat, s: State, r: nat, last: nat, steps: nat) {
    Seeded(g, n, s, r, last) && |s.idx| == n && steps + WorkLeft(s.dfs) == WorkOfVisited(g, s.idx, n)
  }

  /** An iteration is one step of a run that ends after at most one step per node and per edge. */
  lemma StepRuns(g: EdgeTable, n: nat, s: State, r: nat, last: nat, steps: nat)
    requires Running(g, n, s, r, last, steps) && s.dfs != []
    ensures InBounds(g, n, s)
    ensures Running(g, n, Step(g, n, s), r, last, steps + 1)
    ensures forall v: nat :: Visited(s, v) ==> Visited(Step(g, n, s), v)
    ensures steps < n + |g.edges|
  {
    InvInBounds(g, n, s);
    assert FramesInTable(g, s.dfs) && ValidTable(g, n);
    hide Inv, Step, ValidTable, FramesInTable;
    StepKeepsSeeding(g, n, s, r, last);
    WorkLeftPositive(g, s.dfs);
    TopInTable(g, s.dfs);
    StepWork(g, n, s);
    TableEnd(g, n);
    WorkBound(g, n, s.idx, n);
    forall v: nat | Visited(s, v) ensures Visited(Step(g, n, s), v) {
      StepVisits(g, n, s, v);
    }
  }

  lemma TopInTable(g: EdgeTable, dfs: seq<Frame>)
    requires FramesInTable(g, dfs) && dfs != []
    ensures Top(dfs).edge <= Top(dfs).end
  {
  }

  lemma TableEnd(g: EdgeTable, n: nat)
    requires ValidTable(g, n)
    ensures |g.base| == n + 1 && g.base[n] == |g.edges|
  {
  }

  ghost function VisitedNodes(idx: seq<int>, k: nat): set<nat> {
    set v: nat | v < k && v < |idx| && idx[v] != -1
  }

  ghost function VisitedEdges(g: EdgeTable, idx: seq<int>, k: nat): set<nat>
    requires k <= |g.edges|
  {
    set e: nat | e < k && g.edges[e].src < |idx| && idx[g.edges[e].src] != -1
  }

  /** The positions from `lo` up to but excluding `hi`. */
  ghost function Span(lo: nat, hi: nat): (r: set<nat>)
    requires lo <= hi
    ensures |r| == hi - lo
    ensures forall e: nat :: e in r <==> lo <= e < hi
  {
    if lo == hi then {} else Span(lo, hi - 1) + {hi - 1}
  }

  lemma WorkOfOne(g: EdgeTable, n: nat, idx: seq<int>, v: nat)
    requires ValidTable(g, n) && |idx| == n && v < n
    ensures g.base[v] <= g.base[v + 1] <= |g.edges|
    ensures var before, after := VisitedEdges(g, idx, g.base[v]), VisitedEdges(g, idx, g.base[v + 1]);
            |after| == |before| + if idx[v] != -1 then Degree(g, v) else 0
  {
    assert g.base[v + 1] <= g.base[n];
    var lo, hi := g.base[v], g.base[v + 1];
    forall e: nat | e in Span(lo, hi) ensures g.edges[e].src == v {
      SliceSource(g, n, v, e);
    }
    if idx[v] != -1 {
      assert VisitedEdges(g, idx, hi) == VisitedEdges(g, idx, lo) + Span(lo, hi);
    } else {
      assert VisitedEdges(g, idx, hi) == VisitedEdges(g, idx, lo);
    }
  }

  /** The total work is one iteration per visited node and one per edge leaving a visited node. */
  lemma {:induction false} WorkIsNodesAndEdges(g: EdgeTable, n: nat, idx: seq<int>, k: nat)
    requires ValidTable(g, n) && |idx| == n && k <= n
    ensures g.base[k] <= |g.edges|
    ensures WorkOfVisited(g, idx, k) == |VisitedNodes(idx, k)| + |VisitedEdges(g, idx, g.base[k])|
  {
    if k == 0 {
      assert VisitedNodes(idx, 0) == {} && VisitedEdges(g, idx, 0) == {};
    } else {
      WorkIsNodesAndEdges(g, n, idx, k - 1);
      WorkOfOne(g, n, idx, k - 1);
      if idx[k - 1] != -1 {
        assert VisitedNodes(idx, k) == VisitedNodes(idx, k - 1) + {k - 1};
      } else {
        assert VisitedNodes(idx, k) == VisitedNodes(idx, k - 1);
      }
    }
  }

  // ---- the result -----------------------------------------------------------------

  /** A path out of a visited node never leads to a higher component number. */
  ghost predicate Topological(es: multiset<Edge>, s: State) {
    forall u: nat, v: nat :: Visited(s, u) && Reach(es, u, v) ==> Numbered(s, v) && u < |s.scc| && s.scc[v] <= s.scc[u]
  }

  /** What `tarjan` establishes for the first `m` nodes as seeds. */
  ghost predicate Searched(g: EdgeTable, n: nat, s: State, m: nat) {
    && |s.idx| == |s.scc| == n
    && (forall v: nat :: Visited(s, v) <==> FromFirst(EdgesOf(g), m, v))
    && (forall v: nat :: Visited(s, v) <==> Numbered(s, v))
    && Components(EdgesOf(g), s.scc)
    && Topological(EdgesOf(g), s)
    && LaterSeedsHigher(EdgesOf(g), s, m)
    && Slices(s.scc, s.sccNodes, s.sccBase)
  }

  lemma {:induction false} PathNeverRises(g: EdgeTable, n: nat, s: State, u: nat, via: seq<nat>, v: nat)
    requires Inv(g, n, s) && s.dfs == [] && Numbered(s, u) && Path(EdgesOf(g), u, via, v)
    ensures Numbered(s, v) && s.scc[v] <= s.scc[u]
    decreases |via|
  {
    if via != [] {
      var i :| 0 <= i < |g.edges| && g.edges[i] == Edge(u, via[0]);
      assert Done(g, s.idx, s.dfs, u, i);
      PathNeverRises(g, n, s, via[0], via[1..], v);
    }
  }

  lemma SearchEnds(g: EdgeTable, n: nat, s: State, m: nat)
    requires Seeded(g, n, s, m, m) && s.dfs == []
    ensures Searched(g, n, s, m)
  {
    BetweenSeeds(g, n, s);
    var es := EdgesOf(g);
    forall u: nat, v: nat | Visited(s, u) && Reach(es, u, v)
      ensures Numbered(s, v) && s.scc[v] <= s.scc[u]
    {
      var via :| Path(es, u, via, v);
      PathNeverRises(g, n, s, u, via, v);
    }
  }

  // ---- whole runs ---------------------------------------------------------------

  lemma RunStarts(g: EdgeTable, n: nat)
    requires ValidTable(g, n)
    ensures Running(g, n, Initial(n), 0, 0, 0)
  {
    InitialInv(g, n);
    NoWorkYet(g, n, n);
  }

  lemma RunEntersSeed(g: EdgeTable, n: nat, s: State, r: nat, steps: nat)
    requires Running(g, n, s, r, r, steps) && s.dfs == [] && r < n && s.idx[r] == -1
    requires r + 1 < |g.base| && r < |s.low|
    ensures Running(g, n, Visit(g, s, r), r, r + 1, steps) && Visited(Visit(g, s, r), r)
  {
    TableEnd(g, n);
    hide Inv, ValidTable;
    SeedStarts(g, n, s, r);
    VisitWork(g, n, s, r);
  }

  lemma RunLeavesSeed(g: EdgeTable, n: nat, s: State, r: nat, last: nat, steps: nat)
    requires Running(g, n, s, r, last, steps) && s.dfs == [] && last <= r + 1 && Visited(s, r)
    ensures Running(g, n, s, r + 1, r + 1, steps)
  {
    SeedEnds(g, n, s, r, last);
  }

  lemma RunEnds(g: EdgeTable, n: nat, s: State, m: nat, steps: nat)
    requires Running(g, n, s, m, m, steps) && s.dfs == []
    ensures Searched(g, n, s, m)
    ensures steps == |VisitedNodes(s.idx, n)| + |VisitedEdges(g, s.idx, |g.edges|)|
  {
    SearchEnds(g, n, s, m);
    TableEnd(g, n);
    WorkIsNodesAndEdges(g, n, s.idx, n);
  }
}
