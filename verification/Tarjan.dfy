/**
 The search of `DestructGraph::tarjan`, one loop iteration at a time, on values.
 */
module TarjanSteps {
  import opened Reachability

  /** Edges sorted by source, and where each node's edges start (one past the last node: a sentinel). */
  datatype EdgeTable = EdgeTable(edges: seq<Edge>, base: seq<nat>)

  ghost predicate ValidTable(g: EdgeTable, n: nat) {
    && |g.base| == n + 1
    && (forall i, j :: 0 <= i <= j <= n ==> g.base[i] <= g.base[j])
    && g.base[0] == 0 && g.base[n] == |g.edges|
    && (forall e :: 0 <= e < |g.edges| ==>
          g.edges[e].src < n && g.edges[e].dst < n && InSlice(g, g.edges[e].src, e))
  }

  /** Position `e` lies in the part of the table that belongs to node `u`. */
  predicate InSlice(g: EdgeTable, u: nat, e: int) {
    u + 1 < |g.base| && g.base[u] <= e < g.base[u + 1]
  }

  ghost function EdgesOf(g: EdgeTable): multiset<Edge> {
    multiset(g.edges)
  }

  lemma SliceSource(g: EdgeTable, n: nat, u: nat, e: nat)
    requires ValidTable(g, n) && InSlice(g, u, e)
    ensures e < |g.edges| && g.edges[e].src == u && g.edges[e] in EdgesOf(g)
  {
  }

  datatype Frame = Frame(node: nat, edge: nat, end: nat)

  datatype State = State(
    idx: seq<int>,
    low: seq<int>,
    scc: seq<int>,
    stack: seq<nat>,
    dfs: seq<Frame>,
    sccNodes: seq<nat>,
    sccBase: seq<nat>,
    counter: nat)

  function Min(a: int, b: int): int {
    if a < b then a else b
  }

  function PathOf(dfs: seq<Frame>): (path: seq<nat>)
    ensures |path| == |dfs| && forall k :: 0 <= k < |dfs| ==> path[k] == dfs[k].node
  {
    seq(|dfs|, k requires 0 <= k < |dfs| => dfs[k].node)
  }

  // ---- the state between two iterations ------------------------------------

  ghost predicate OnStack(idx: seq<int>, scc: seq<int>, v: nat) {
    v < |idx| && v < |scc| && idx[v] != -1 && scc[v] == -1
  }

  ghost predicate Sized(n: nat, s: State) {
    && |s.idx| == |s.low| == |s.scc| == n
    && (forall v :: 0 <= v < n ==> -1 <= s.idx[v] < s.counter)
    && (forall v :: 0 <= v < n ==> -1 <= s.scc[v] < |s.sccBase|)
    && (forall v :: 0 <= v < n && s.scc[v] != -1 ==> s.idx[v] != -1)
  }

  /** The Tarjan stack holds exactly the visited nodes without a component, in the order visited. */
  ghost predicate StackOrder(idx: seq<int>, scc: seq<int>, stack: seq<nat>) {
    && (forall p :: 0 <= p < |stack| ==> OnStack(idx, scc, stack[p]))
    && (forall p, q :: 0 <= p < q < |stack| ==> idx[stack[p]] < idx[stack[q]])
    && (forall v: nat :: OnStack(idx, scc, v) ==> v in stack)
  }

  /** The nodes of the DFS frames are a subsequence of the stack, starting with its bottom. */
  ghost predicate PathOnStack(idx: seq<int>, scc: seq<int>, stack: seq<nat>, path: seq<nat>) {
    && (forall k :: 0 <= k < |path| ==> OnStack(idx, scc, path[k]))
    && (forall k, l :: 0 <= k < l < |path| ==> idx[path[k]] < idx[path[l]])
    && (path == [] <==> stack == [])
    && (path != [] ==> stack[0] == path[0])
  }

  ghost predicate FramesInTable(g: EdgeTable, dfs: seq<Frame>) {
    forall k :: 0 <= k < |dfs| ==>
      dfs[k].node + 1 < |g.base| &&
      g.base[dfs[k].node] <= dfs[k].edge <= dfs[k].end == g.base[dfs[k].node + 1]
  }

  /** `x` is on the stack, at or above the `k`-th frame's node and below the next frame's. */
  ghost predicate Region(idx: seq<int>, scc: seq<int>, path: seq<nat>, k: nat, x: nat) {
    && k < |path| && path[k] < |idx|
    && OnStack(idx, scc, x)
    && idx[path[k]] <= idx[x]
    && (k + 1 < |path| && path[k + 1] < |idx| ==> idx[x] < idx[path[k + 1]])
  }

  /**
   The DFS frames are a path, and what lies between two frames on the stack
   belongs to one component, that of the lower frame.
   */
  ghost predicate Connected(es: multiset<Edge>, idx: seq<int>, scc: seq<int>, path: seq<nat>) {
    && (forall k, l :: 0 <= k < l < |path| ==> Reach(es, path[k], path[l]))
    && forall k: nat, x: nat :: Region(idx, scc, path, k, x) ==> Mutual(es, path[k], x)
  }

  /** Each lowlink is the index of a stack node that its owner reaches. */
  ghost predicate LowReached(es: multiset<Edge>, idx: seq<int>, low: seq<int>, scc: seq<int>) {
    && |low| == |idx|
    && forall x: nat {:trigger low[x]} :: OnStack(idx, scc, x) ==>
         low[x] <= idx[x] && exists z: nat :: LowAt(es, idx, low, scc, x, z)
  }

  ghost predicate LowAt(es: multiset<Edge>, idx: seq<int>, low: seq<int>, scc: seq<int>, x: nat, z: nat) {
    OnStack(idx, scc, z) && x < |low| && idx[z] == low[x] && Reach(es, x, z)
  }

  /** The edge at position `e` leaves the visited node `x` and has been looked at. */
  ghost predicate Done(g: EdgeTable, idx: seq<int>, dfs: seq<Frame>, x: nat, e: nat) {
    && x < |idx| && idx[x] != -1 && InSlice(g, x, e) && e < |g.edges|
    && forall k :: 0 <= k < |dfs| && dfs[k].node == x ==> e < dfs[k].edge
  }

  ghost predicate DoneVisited(g: EdgeTable, idx: seq<int>, dfs: seq<Frame>) {
    forall x: nat, e: nat :: Done(g, idx, dfs, x, e) ==> g.edges[e].dst < |idx| && idx[g.edges[e].dst] != -1
  }

  /** No edge leaves the numbered components for a higher number or for no number at all. */
  ghost predicate DoneNumbered(g: EdgeTable, idx: seq<int>, scc: seq<int>, dfs: seq<Frame>) {
    && |scc| == |idx|
    && forall x: nat, e: nat :: Done(g, idx, dfs, x, e) && scc[x] != -1 ==>
         g.edges[e].dst < |scc| && -1 != scc[g.edges[e].dst] <= scc[x]
  }

  /** A frame's lowlink accounts for every edge seen from its region to the stack. */
  ghost predicate DoneLow(g: EdgeTable, idx: seq<int>, low: seq<int>, scc: seq<int>, dfs: seq<Frame>) {
    && |scc| == |idx| == |low|
    && forall k: nat, x: nat, e: nat ::
         Region(idx, scc, PathOf(dfs), k, x) && Done(g, idx, dfs, x, e) && OnStack(idx, scc, g.edges[e].dst) ==>
         low[dfs[k].node] <= idx[g.edges[e].dst]
  }

  /** Numbered components are exactly the strongly connected components. */
  ghost predicate Components(es: multiset<Edge>, scc: seq<int>) {
    forall x: nat, y: nat :: x < |scc| && y < |scc| && scc[x] != -1 && scc[y] != -1 ==>
      (scc[x] == scc[y] <==> Mutual(es, x, y))
  }

  ghost function SliceEnd(base: seq<nat>, total: nat, c: nat): nat {
    if c + 1 < |base| then base[c + 1] else total
  }

  /** The component slices partition the numbered nodes. */
  ghost predicate Slices(scc: seq<int>, nodes: seq<nat>, base: seq<nat>) {
    && (if base == [] then nodes == [] else base[0] == 0)
    && (forall c, d :: 0 <= c <= d < |base| ==> base[c] <= base[d] <= |nodes|)
    && (forall p :: 0 <= p < |nodes| ==>
          nodes[p] < |scc| && 0 <= scc[nodes[p]] < |base| &&
          base[scc[nodes[p]]] <= p < SliceEnd(base, |nodes|, scc[nodes[p]]))
    && (forall p, q :: 0 <= p < q < |nodes| ==> nodes[p] != nodes[q])
    && (forall v :: 0 <= v < |scc| && scc[v] != -1 ==> v in nodes)
  }

  ghost predicate Inv(g: EdgeTable, n: nat, s: State) {
    && ValidTable(g, n)
    && Sized(n, s)
    && StackOrder(s.idx, s.scc, s.stack)
    && PathOnStack(s.idx, s.scc, s.stack, PathOf(s.dfs))
    && FramesInTable(g, s.dfs)
    && Connected(EdgesOf(g), s.idx, s.scc, PathOf(s.dfs))
    && LowReached(EdgesOf(g), s.idx, s.low, s.scc)
    && DoneVisited(g, s.idx, s.dfs)
    && DoneNumbered(g, s.idx, s.scc, s.dfs)
    && DoneLow(g, s.idx, s.low, s.scc, s.dfs)
    && Components(EdgesOf(g), s.scc)
    && Slices(s.scc, s.sccNodes, s.sccBase)
  }

  // ---- one iteration -------------------------------------------------------

  /** What the loop body needs in order not to index out of bounds. */
  ghost predicate InBounds(g: EdgeTable, n: nat, s: State) {
    && |g.base| == n + 1
    && |s.idx| == |s.low| == |s.scc| == n
    && (forall e :: 0 <= e < |g.edges| ==> g.edges[e].dst < n)
    && (forall k :: 0 <= k < |s.dfs| ==>
          s.dfs[k].node < n && s.dfs[k].node in s.stack && s.dfs[k].end <= |g.edges|)
    && (forall p :: 0 <= p < |s.stack| ==> s.stack[p] < n)
  }

  lemma InvInBounds(g: EdgeTable, n: nat, s: State)
    requires Inv(g, n, s)
    ensures InBounds(g, n, s)
  {
    forall k | 0 <= k < |s.dfs|
      ensures s.dfs[k].node < n && s.dfs[k].node in s.stack && s.dfs[k].end <= |g.edges|
    {
      assert OnStack(s.idx, s.scc, PathOf(s.dfs)[k]);
    }
  }

  function Top(dfs: seq<Frame>): Frame
    requires dfs != []
  {
    dfs[|dfs| - 1]
  }

  function Advance(dfs: seq<Frame>): (dfs': seq<Frame>)
    requires dfs != []
    ensures PathOf(dfs') == PathOf(dfs)
  {
    dfs[|dfs| - 1 := Top(dfs).(edge := Top(dfs).edge + 1)]
  }

  function Visit(g: EdgeTable, s: State, v: nat): State
    requires v + 1 < |g.base| && v < |s.idx| && v < |s.low|
  {
    s.(idx := s.idx[v := s.counter],
       low := s.low[v := s.counter],
       stack := s.stack + [v],
       dfs := s.dfs + [Frame(v, g.base[v], g.base[v + 1])],
       counter := s.counter + 1)
  }

  /** The edge at the top frame leads to a visited node. */
  function SeenEdge(g: EdgeTable, s: State, u: nat, y: nat): State
    requires s.dfs != [] && u < |s.low| && y < |s.scc| && y < |s.idx|
  {
    s.(dfs := Advance(s.dfs),
       low := if s.scc[y] == -1 then s.low[u := Min(s.low[u], s.idx[y])] else s.low)
  }

  function PopOne(s: State, c: nat): State
    requires s.stack != [] && s.stack[|s.stack| - 1] < |s.scc|
  {
    var j := s.stack[|s.stack| - 1];
    s.(stack := s.stack[..|s.stack| - 1], scc := s.scc[j := c], sccNodes := s.sccNodes + [j])
  }

  /** Pops the stack down to and including `root`, numbering what is popped `c`. */
  function PopScc(s: State, root: nat, c: nat): (s': State)
    requires root in s.stack
    requires forall p :: 0 <= p < |s.stack| ==> s.stack[p] < |s.scc|
    ensures s'.(stack := s.stack, scc := s.scc, sccNodes := s.sccNodes) == s
    ensures |s'.scc| == |s.scc|
    decreases |s.stack|
  {
    if s.stack[|s.stack| - 1] == root then PopOne(s, c) else PopScc(PopOne(s, c), root, c)
  }

  /** A node whose lowlink is its own index is the first visited of its component. */
  function CloseComponent(s: State, u: nat): (s': State)
    requires u in s.stack
    requires forall p :: 0 <= p < |s.stack| ==> s.stack[p] < |s.scc|
    requires u < |s.low| && u < |s.idx|
    ensures s'.dfs == s.dfs && s'.low == s.low && s'.idx == s.idx && s'.counter == s.counter
  {
    if s.low[u] == s.idx[u] then
      PopScc(s.(sccBase := s.sccBase + [|s.sccNodes|]), u, |s.sccBase|)
    else
      s
  }

  function PopFrame(s: State): State
    requires s.dfs != []
    requires forall k :: 0 <= k < |s.dfs| ==> s.dfs[k].node < |s.low|
  {
    var dfs' := s.dfs[..|s.dfs| - 1];
    if dfs' == [] then
      s.(dfs := dfs')
    else
      var p := Top(dfs').node;
      s.(dfs := dfs', low := s.low[p := Min(s.low[p], s.low[Top(s.dfs).node])])
  }

  /** One iteration of the inner loop. */
  ghost function Step(g: EdgeTable, n: nat, s: State): State
    requires InBounds(g, n, s) && s.dfs != []
  {
    var u := Top(s.dfs).node;
    if Top(s.dfs).edge < Top(s.dfs).end then
      var y := g.edges[Top(s.dfs).edge].dst;
      if s.idx[y] != -1 then SeenEdge(g, s, u, y) else Visit(g, s.(dfs := Advance(s.dfs)), y)
    else
      PopFrame(CloseComponent(s, u))
  }

  // ---- lowlinks --------------------------------------------------------------

  /** Lowering a lowlink to the index of a stack node its owner reaches. */
  lemma LowerLow(es: multiset<Edge>, idx: seq<int>, low: seq<int>, scc: seq<int>, u: nat, z: nat)
    requires LowReached(es, idx, low, scc)
    requires OnStack(idx, scc, u) && OnStack(idx, scc, z) && Reach(es, u, z)
    ensures LowReached(es, idx, low[u := Min(low[u], idx[z])], scc)
  {
    var low' := low[u := Min(low[u], idx[z])];
    forall x: nat | OnStack(idx, scc, x)
      ensures low'[x] <= idx[x] && exists w: nat :: LowAt(es, idx, low', scc, x, w)
    {
      if low'[x] == low[x] {
        var w: nat :| LowAt(es, idx, low, scc, x, w);
        assert LowAt(es, idx, low', scc, x, w);
      } else {
        assert LowAt(es, idx, low', scc, x, z);
      }
    }
  }

  lemma TopEdge(g: EdgeTable, n: nat, s: State)
    requires ValidTable(g, n) && FramesInTable(g, s.dfs) && s.dfs != [] && Top(s.dfs).edge < Top(s.dfs).end
    ensures Top(s.dfs).edge < |g.edges|
    ensures g.edges[Top(s.dfs).edge].src == Top(s.dfs).node
    ensures Reach(EdgesOf(g), Top(s.dfs).node, g.edges[Top(s.dfs).edge].dst)
    ensures InSlice(g, Top(s.dfs).node, Top(s.dfs).edge)
  {
    var u, e := Top(s.dfs).node, Top(s.dfs).edge;
    SliceSource(g, n, u, e);
    ReachEdge(EdgesOf(g), u, g.edges[e].dst);
  }

  // ---- an edge to a visited node ----------------------------------------------

  lemma AdvanceDone(g: EdgeTable, idx: seq<int>, dfs: seq<Frame>, x: nat, e: nat)
    requires dfs != [] && Done(g, idx, Advance(dfs), x, e)
    ensures Done(g, idx, dfs, x, e) || (x == Top(dfs).node && e == Top(dfs).edge)
  {
    var dfs' := Advance(dfs);
    if !(x == Top(dfs).node && e == Top(dfs).edge) {
      forall k | 0 <= k < |dfs| && dfs[k].node == x
        ensures e < dfs[k].edge
      {
        assert dfs'[k].node == x;
      }
    }
  }

  lemma SeenEdgeKeepsInv(g: EdgeTable, n: nat, s: State)
    requires Inv(g, n, s) && InBounds(g, n, s) && s.dfs != [] && Top(s.dfs).edge < Top(s.dfs).end
    requires s.idx[g.edges[Top(s.dfs).edge].dst] != -1
    ensures Inv(g, n, SeenEdge(g, s, Top(s.dfs).node, g.edges[Top(s.dfs).edge].dst))
  {
    var u, y := Top(s.dfs).node, g.edges[Top(s.dfs).edge].dst;
    TopEdge(g, n, s);
    assert OnStack(s.idx, s.scc, PathOf(s.dfs)[|s.dfs| - 1]);
    if s.scc[y] == -1 {
      LowerLow(EdgesOf(g), s.idx, s.low, s.scc, u, y);
    }
    SeenEdgeDone(g, n, s, u, y);
    hide StackOrder, PathOnStack, Connected, LowReached, DoneVisited, DoneNumbered, DoneLow, Components, Slices;
  }

  lemma SeenEdgeDone(g: EdgeTable, n: nat, s: State, u: nat, y: nat)
    requires Sized(n, s) && s.dfs != [] && PathOnStack(s.idx, s.scc, s.stack, PathOf(s.dfs))
    requires DoneVisited(g, s.idx, s.dfs) && DoneNumbered(g, s.idx, s.scc, s.dfs)
    requires DoneLow(g, s.idx, s.low, s.scc, s.dfs)
    requires u < n && y < n && u == Top(s.dfs).node && s.idx[y] != -1 && s.scc[u] == -1
    requires Top(s.dfs).edge < |g.edges| && g.edges[Top(s.dfs).edge].dst == y
    ensures DoneVisited(g, s.idx, Advance(s.dfs))
    ensures DoneNumbered(g, s.idx, s.scc, Advance(s.dfs))
    ensures DoneLow(g, s.idx, SeenEdge(g, s, u, y).low, s.scc, Advance(s.dfs))
  {
    var dfs' := Advance(s.dfs);
    var low' := SeenEdge(g, s, u, y).low;
    forall x: nat, e: nat | Done(g, s.idx, dfs', x, e)
      ensures g.edges[e].dst < n && s.idx[g.edges[e].dst] != -1
      ensures s.scc[x] != -1 ==> -1 != s.scc[g.edges[e].dst] <= s.scc[x]
      ensures Done(g, s.idx, s.dfs, x, e) || (x == u && e == Top(s.dfs).edge)
    {
      AdvanceDone(g, s.idx, s.dfs, x, e);
    }
    forall k: nat, x: nat, e: nat |
      Region(s.idx, s.scc, PathOf(dfs'), k, x) && Done(g, s.idx, dfs', x, e) && OnStack(s.idx, s.scc, g.edges[e].dst)
      ensures low'[dfs'[k].node] <= s.idx[g.edges[e].dst]
    {
      if Done(g, s.idx, s.dfs, x, e) {
        assert s.low[s.dfs[k].node] <= s.idx[g.edges[e].dst];
      } else {
        assert k == |s.dfs| - 1;
      }
    }
  }

  // ---- a new node --------------------------------------------------------------

  /** The frames from which a new node is entered: none yet, or the top one moved past the edge to it. */
  ghost predicate Enters(g: EdgeTable, dfs: seq<Frame>, dfs0: seq<Frame>, v: nat) {
    if dfs == [] then dfs0 == []
    else
      && dfs0 == Advance(dfs) && Top(dfs).edge < |g.edges|
      && InSlice(g, Top(dfs).node, Top(dfs).edge)
      && g.edges[Top(dfs).edge] == Edge(Top(dfs).node, v)
  }

  lemma VisitKeepsInv(g: EdgeTable, n: nat, s: State, dfs0: seq<Frame>, v: nat)
    requires Inv(g, n, s) && v < n && s.idx[v] == -1 && Enters(g, s.dfs, dfs0, v)
    ensures Inv(g, n, Visit(g, s.(dfs := dfs0), v))
  {
    var s' := Visit(g, s.(dfs := dfs0), v);
    VisitStack(n, s, s', v);
    VisitFrames(g, n, s, dfs0, v);
    VisitPath(n, s, v);
    VisitConnected(g, n, s, dfs0, v);
    VisitLow(g, n, s, s', v);
    VisitDone(g, n, s, dfs0, v);
    VisitDoneLow(g, n, s, dfs0, v);
  }

  lemma VisitStack(n: nat, s: State, s': State, v: nat)
    requires Sized(n, s) && StackOrder(s.idx, s.scc, s.stack)
    requires v < n && s.idx[v] == -1
    requires s'.idx == s.idx[v := s.counter] && s'.low == s.low[v := s.counter]
    requires s'.scc == s.scc && s'.stack == s.stack + [v] && s'.counter == s.counter + 1 && s'.sccBase == s.sccBase
    ensures Sized(n, s') && StackOrder(s'.idx, s'.scc, s'.stack)
    ensures forall x: nat :: OnStack(s'.idx, s'.scc, x) <==> x == v || OnStack(s.idx, s.scc, x)
  {
    forall x: nat | OnStack(s'.idx, s'.scc, x)
      ensures x in s'.stack
    {
      if x == v {
        assert s'.stack[|s.stack|] == v;
      } else {
        assert OnStack(s.idx, s.scc, x);
      }
    }
  }

  lemma VisitFrames(g: EdgeTable, n: nat, s: State, dfs0: seq<Frame>, v: nat)
    requires v + 1 < |g.base| && g.base[v] <= g.base[v + 1] && FramesInTable(g, s.dfs)
    requires v < n && v < |s.idx| && v < |s.low| && Enters(g, s.dfs, dfs0, v)
    ensures FramesInTable(g, Visit(g, s.(dfs := dfs0), v).dfs)
    ensures PathOf(Visit(g, s.(dfs := dfs0), v).dfs) == PathOf(s.dfs) + [v]
  {
    var dfs' := Visit(g, s.(dfs := dfs0), v).dfs;
    forall k | 0 <= k < |dfs'|
      ensures dfs'[k].node + 1 < |g.base|
      ensures g.base[dfs'[k].node] <= dfs'[k].edge <= dfs'[k].end == g.base[dfs'[k].node + 1]
    {
      if k < |dfs0| - 1 {
        assert dfs'[k] == s.dfs[k];
      }
    }
  }

  lemma VisitPath(n: nat, s: State, v: nat)
    requires Sized(n, s) && PathOnStack(s.idx, s.scc, s.stack, PathOf(s.dfs))
    requires v < n && s.idx[v] == -1
    ensures PathOnStack(s.idx[v := s.counter], s.scc, s.stack + [v], PathOf(s.dfs) + [v])
  {
  }

  lemma VisitConnected(g: EdgeTable, n: nat, s: State, dfs0: seq<Frame>, v: nat)
    requires Sized(n, s) && PathOnStack(s.idx, s.scc, s.stack, PathOf(s.dfs))
    requires Connected(EdgesOf(g), s.idx, s.scc, PathOf(s.dfs))
    requires v < n && s.idx[v] == -1 && Enters(g, s.dfs, dfs0, v)
    ensures Connected(EdgesOf(g), s.idx[v := s.counter], s.scc, PathOf(s.dfs) + [v])
  {
    var es, path, idx' := EdgesOf(g), PathOf(s.dfs), s.idx[v := s.counter];
    var path' := path + [v];
    forall k, l | 0 <= k < l < |path'|
      ensures Reach(es, path'[k], path'[l])
    {
      if l == |path| {
        ReachEdge(es, Top(s.dfs).node, v);
        if k < |path| - 1 {
          ReachTransitive(es, path[k], Top(s.dfs).node, v);
        }
      }
    }
    forall k: nat, x: nat | Region(idx', s.scc, path', k, x)
      ensures Mutual(es, path'[k], x)
    {
      if k == |path| {
        ReachSelf(es, v);
      } else {
        assert idx'[path'[k + 1]] <= s.counter;
        assert Region(s.idx, s.scc, path, k, x);
      }
    }
  }

  lemma VisitLow(g: EdgeTable, n: nat, s: State, s': State, v: nat)
    requires Sized(n, s) && LowReached(EdgesOf(g), s.idx, s.low, s.scc)
    requires v < n && s.idx[v] == -1
    requires s'.idx == s.idx[v := s.counter] && s'.low == s.low[v := s.counter] && s'.scc == s.scc
    ensures LowReached(EdgesOf(g), s'.idx, s'.low, s'.scc)
  {
    forall x: nat | OnStack(s'.idx, s'.scc, x)
      ensures s'.low[x] <= s'.idx[x] && exists z: nat :: LowAt(EdgesOf(g), s'.idx, s'.low, s'.scc, x, z)
    {
      if x == v {
        ReachSelf(EdgesOf(g), v);
        assert LowAt(EdgesOf(g), s'.idx, s'.low, s'.scc, v, v);
      } else {
        assert s.low[x] <= s.idx[x];
        var z: nat :| LowAt(EdgesOf(g), s.idx, s.low, s.scc, x, z);
        assert LowAt(EdgesOf(g), s'.idx, s'.low, s'.scc, x, z);
      }
    }
  }

  lemma VisitDone(g: EdgeTable, n: nat, s: State, dfs0: seq<Frame>, v: nat)
    requires v + 1 < |g.base| && Sized(n, s) && PathOnStack(s.idx, s.scc, s.stack, PathOf(s.dfs))
    requires DoneVisited(g, s.idx, s.dfs) && DoneNumbered(g, s.idx, s.scc, s.dfs)
    requires v < n && s.idx[v] == -1 && Enters(g, s.dfs, dfs0, v)
    ensures var s' := Visit(g, s.(dfs := dfs0), v);
            DoneVisited(g, s'.idx, s'.dfs) && DoneNumbered(g, s'.idx, s'.scc, s'.dfs)
  {
    var s' := Visit(g, s.(dfs := dfs0), v);
    forall x: nat, e: nat | Done(g, s'.idx, s'.dfs, x, e)
      ensures g.edges[e].dst < n && s'.idx[g.edges[e].dst] != -1
      ensures s.scc[x] != -1 ==> -1 != s.scc[g.edges[e].dst] <= s.scc[x]
    {
      VisitDoneEdge(g, s, dfs0, v, x, e);
      if !Done(g, s.idx, s.dfs, x, e) {
        assert OnStack(s.idx, s.scc, PathOf(s.dfs)[|s.dfs| - 1]);
      }
    }
  }

  lemma VisitDoneLow(g: EdgeTable, n: nat, s: State, dfs0: seq<Frame>, v: nat)
    requires v + 1 < |g.base| && Sized(n, s) && PathOnStack(s.idx, s.scc, s.stack, PathOf(s.dfs))
    requires LowReached(EdgesOf(g), s.idx, s.low, s.scc) && DoneVisited(g, s.idx, s.dfs)
    requires DoneLow(g, s.idx, s.low, s.scc, s.dfs)
    requires v < n && s.idx[v] == -1 && Enters(g, s.dfs, dfs0, v)
    ensures var s' := Visit(g, s.(dfs := dfs0), v); DoneLow(g, s'.idx, s'.low, s'.scc, s'.dfs)
  {
    var s' := Visit(g, s.(dfs := dfs0), v);
    forall k: nat, x: nat, e: nat |
      Region(s'.idx, s'.scc, PathOf(s'.dfs), k, x) && Done(g, s'.idx, s'.dfs, x, e) &&
      OnStack(s'.idx, s'.scc, g.edges[e].dst)
      ensures s'.low[s'.dfs[k].node] <= s'.idx[g.edges[e].dst]
    {
      VisitDoneEdge(g, s, dfs0, v, x, e);
      VisitRegion(g, n, s, dfs0, v, k, x);
      assert OnStack(s.idx, s.scc, PathOf(s.dfs)[k]);
      if Done(g, s.idx, s.dfs, x, e) {
        assert s.low[s.dfs[k].node] <= s.idx[g.edges[e].dst];
      } else {
        assert k == |s.dfs| - 1;
        assert s.low[x] <= s.idx[x];
      }
    }
  }

  lemma VisitDoneEdge(g: EdgeTable, s: State, dfs0: seq<Frame>, v: nat, x: nat, e: nat)
    requires v + 1 < |g.base| && v < |s.idx| && v < |s.low| && Enters(g, s.dfs, dfs0, v)
    requires Done(g, s.idx[v := s.counter], Visit(g, s.(dfs := dfs0), v).dfs, x, e)
    ensures x != v
    ensures Done(g, s.idx, s.dfs, x, e) || (s.dfs != [] && x == Top(s.dfs).node && e == Top(s.dfs).edge)
  {
    var dfs' := Visit(g, s.(dfs := dfs0), v).dfs;
    assert dfs'[|dfs0|].node == v;
    forall k | 0 <= k < |dfs0| && dfs0[k].node == x
      ensures e < dfs0[k].edge
    {
      assert dfs'[k].node == x;
    }
    assert Done(g, s.idx, dfs0, x, e);
    if s.dfs != [] {
      AdvanceDone(g, s.idx, s.dfs, x, e);
    }
  }

  lemma VisitRegion(g: EdgeTable, n: nat, s: State, dfs0: seq<Frame>, v: nat, k: nat, x: nat)
    requires v + 1 < |g.base| && v < n && Sized(n, s) && s.idx[v] == -1
    requires PathOnStack(s.idx, s.scc, s.stack, PathOf(s.dfs)) && Enters(g, s.dfs, dfs0, v)
    requires var s' := Visit(g, s.(dfs := dfs0), v); Region(s'.idx, s'.scc, PathOf(s'.dfs), k, x)
    requires x != v
    ensures Region(s.idx, s.scc, PathOf(s.dfs), k, x)
  {
    var s' := Visit(g, s.(dfs := dfs0), v);
    assert PathOf(s'.dfs) == PathOf(s.dfs) + [v];
  }

  // ---- a node whose edges are all done -------------------------------------------

  lemma FinishDone(g: EdgeTable, idx: seq<int>, dfs: seq<Frame>, x: nat, e: nat)
    requires dfs != [] && FramesInTable(g, dfs) && Top(dfs).edge == Top(dfs).end
    requires Done(g, idx, dfs[..|dfs| - 1], x, e)
    ensures Done(g, idx, dfs, x, e)
  {
    forall k | 0 <= k < |dfs| && dfs[k].node == x
      ensures e < dfs[k].edge
    {
      if k < |dfs| - 1 {
        assert dfs[..|dfs| - 1][k].node == x;
      }
    }
  }

  lemma PathOfInit(dfs: seq<Frame>)
    requires dfs != []
    ensures PathOf(dfs[..|dfs| - 1]) == PathOf(dfs)[..|dfs| - 1]
  {
  }

  /** Every stack node lies in the region of some frame. */
  lemma {:induction false} RegionExists(idx: seq<int>, scc: seq<int>, path: seq<nat>, k: nat, x: nat) returns (j: nat)
    requires forall i :: 0 <= i < |path| ==> path[i] < |idx|
    requires k < |path| && OnStack(idx, scc, x) && idx[path[0]] <= idx[x]
    requires k + 1 < |path| ==> idx[x] < idx[path[k + 1]]
    ensures j <= k && Region(idx, scc, path, j, x)
  {
    if idx[path[k]] <= idx[x] {
      j := k;
    } else {
      j := RegionExists(idx, scc, path, k - 1, x);
    }
  }

  lemma BottomLowest(idx: seq<int>, scc: seq<int>, stack: seq<nat>, x: nat)
    requires StackOrder(idx, scc, stack) && OnStack(idx, scc, x)
    ensures stack != [] && idx[stack[0]] <= idx[x]
  {
  }

  // ---- it is not the first of its component

  /** A finished node that reaches below itself reaches its parent in the DFS. */
  lemma ReachesParent(es: multiset<Edge>, s: State, path: seq<nat>, u: nat)
    requires StackOrder(s.idx, s.scc, s.stack) && PathOnStack(s.idx, s.scc, s.stack, path)
    requires Connected(es, s.idx, s.scc, path) && LowReached(es, s.idx, s.low, s.scc)
    requires path != [] && u == path[|path| - 1] && u < |s.low| && s.low[u] != s.idx[u]
    ensures |path| >= 2 && Reach(es, u, path[|path| - 2])
  {
    var z: nat :| LowAt(es, s.idx, s.low, s.scc, u, z);
    assert s.low[u] <= s.idx[u];
    BottomLowest(s.idx, s.scc, s.stack, z);
    var t := |path| - 1;
    assert t >= 1;
    forall i | 0 <= i < |path| ensures path[i] < |s.idx| { assert OnStack(s.idx, s.scc, path[i]); }
    var j := RegionExists(s.idx, s.scc, path, t - 1, z);
    ReachTransitive(es, u, z, path[j]);
    if j < t - 1 {
      ReachTransitive(es, u, path[j], path[t - 1]);
    }
  }

  lemma MutualTransitive(es: multiset<Edge>, u: nat, v: nat, w: nat)
    requires Mutual(es, u, v) && Mutual(es, v, w)
    ensures Mutual(es, u, w)
  {
    ReachTransitive(es, u, v, w);
    ReachTransitive(es, w, v, u);
  }

  lemma JoinRegions(es: multiset<Edge>, idx: seq<int>, scc: seq<int>, path: seq<nat>)
    requires Connected(es, idx, scc, path) && |path| >= 2
    requires forall k :: 0 <= k < |path| ==> path[k] < |idx|
    requires Reach(es, path[|path| - 1], path[|path| - 2])
    ensures Connected(es, idx, scc, path[..|path| - 1])
  {
    var t := |path| - 1;
    var path' := path[..t];
    forall k: nat, x: nat | Region(idx, scc, path', k, x)
      ensures Mutual(es, path'[k], x)
    {
      if k == t - 1 && idx[path[t]] <= idx[x] {
        assert Region(idx, scc, path, t, x);
        MutualTransitive(es, path[k], path[t], x);
      } else {
        assert Region(idx, scc, path, k, x);
      }
    }
  }

  lemma FinishInnerKeepsInv(g: EdgeTable, n: nat, s: State)
    requires Inv(g, n, s) && InBounds(g, n, s) && s.dfs != [] && Top(s.dfs).edge >= Top(s.dfs).end
    requires s.low[Top(s.dfs).node] != s.idx[Top(s.dfs).node]
    ensures Inv(g, n, PopFrame(s))
  {
    hide StackOrder, PathOnStack, Connected, LowReached, DoneVisited, DoneNumbered, DoneLow, Components, Slices;
    var es, path := EdgesOf(g), PathOf(s.dfs);
    PathOfInit(s.dfs);
    ReachesParent(es, s, path, Top(s.dfs).node);
    FinishInnerPath(s.idx, s.scc, s.stack, path);
    JoinRegions(es, s.idx, s.scc, path);
    FinishInnerLow(g, n, s);
    FinishInnerDone(g, n, s);
    FinishDoneNumbered(g, n, s);
  }

  lemma FinishInnerPath(idx: seq<int>, scc: seq<int>, stack: seq<nat>, path: seq<nat>)
    requires PathOnStack(idx, scc, stack, path) && |path| >= 2
    ensures PathOnStack(idx, scc, stack, path[..|path| - 1])
  {
  }

  lemma FinishInnerLow(g: EdgeTable, n: nat, s: State)
    requires |s.dfs| >= 2 && PathOnStack(s.idx, s.scc, s.stack, PathOf(s.dfs)) && Sized(n, s)
    requires LowReached(EdgesOf(g), s.idx, s.low, s.scc)
    requires Connected(EdgesOf(g), s.idx, s.scc, PathOf(s.dfs))
    requires InBounds(g, n, s)
    ensures LowReached(EdgesOf(g), s.idx, PopFrame(s).low, s.scc)
  {
    var es, path, t := EdgesOf(g), PathOf(s.dfs), |s.dfs| - 1;
    assert OnStack(s.idx, s.scc, path[t]) && OnStack(s.idx, s.scc, path[t - 1]);
    assert s.low[path[t]] <= s.idx[path[t]];
    var z: nat :| LowAt(es, s.idx, s.low, s.scc, path[t], z);
    ReachTransitive(es, path[t - 1], path[t], z);
    LowerLow(es, s.idx, s.low, s.scc, path[t - 1], z);
  }

  lemma FinishInnerDone(g: EdgeTable, n: nat, s: State)
    requires |s.dfs| >= 2 && FramesInTable(g, s.dfs) && Top(s.dfs).edge == Top(s.dfs).end
    requires PathOnStack(s.idx, s.scc, s.stack, PathOf(s.dfs)) && InBounds(g, n, s)
    requires DoneLow(g, s.idx, s.low, s.scc, s.dfs)
    ensures DoneLow(g, s.idx, PopFrame(s).low, s.scc, PopFrame(s).dfs)
  {
    var s', t := PopFrame(s), |s.dfs| - 1;
    PathOfInit(s.dfs);
    assert OnStack(s.idx, s.scc, PathOf(s.dfs)[t]) && OnStack(s.idx, s.scc, PathOf(s.dfs)[t - 1]);
    forall k: nat, x: nat, e: nat |
      Region(s.idx, s.scc, PathOf(s'.dfs), k, x) && Done(g, s.idx, s'.dfs, x, e) && OnStack(s.idx, s.scc, g.edges[e].dst)
      ensures s'.low[s'.dfs[k].node] <= s.idx[g.edges[e].dst]
    {
      FinishDone(g, s.idx, s.dfs, x, e);
      if k == t - 1 && s.idx[s.dfs[t].node] <= s.idx[x] {
        assert Region(s.idx, s.scc, PathOf(s.dfs), t, x);
      } else {
        assert Region(s.idx, s.scc, PathOf(s.dfs), k, x);
      }
    }
  }

  lemma FinishDoneNumbered(g: EdgeTable, n: nat, s: State)
    requires s.dfs != [] && FramesInTable(g, s.dfs) && Top(s.dfs).edge >= Top(s.dfs).end
    requires DoneVisited(g, s.idx, s.dfs) && DoneNumbered(g, s.idx, s.scc, s.dfs)
    ensures DoneVisited(g, s.idx, s.dfs[..|s.dfs| - 1])
    ensures DoneNumbered(g, s.idx, s.scc, s.dfs[..|s.dfs| - 1])
  {
    var dfs' := s.dfs[..|s.dfs| - 1];
    forall x: nat, e: nat | Done(g, s.idx, dfs', x, e)
      ensures g.edges[e].dst < |s.idx| && s.idx[g.edges[e].dst] != -1
      ensures s.scc[x] != -1 ==> -1 != s.scc[g.edges[e].dst] <= s.scc[x]
    {
      FinishDone(g, s.idx, s.dfs, x, e);
    }
  }

  // ---- it is the first of its component

  function Reverse(xs: seq<nat>): (r: seq<nat>)
    ensures |r| == |xs|
    decreases |xs|
  {
    if xs == [] then [] else [xs[|xs| - 1]] + Reverse(xs[..|xs| - 1])
  }

  lemma {:induction false} ReverseAt(xs: seq<nat>, k: nat)
    requires k < |xs|
    ensures Reverse(xs)[k] == xs[|xs| - 1 - k]
    decreases |xs|
  {
    if k > 0 {
      ReverseAt(xs[..|xs| - 1], k - 1);
    }
  }

  /** `s'` is `s` with the stack popped from position `p` up and its nodes given number `c`. */
  ghost predicate Popped(s: State, s': State, p: nat, c: nat) {
    && p <= |s.stack| && |s.scc| == |s'.scc|
    && s'.(stack := s.stack, scc := s.scc, sccNodes := s.sccNodes) == s
    && s'.stack == s.stack[..p]
    && (forall v: nat :: v < |s.scc| ==> s'.scc[v] == if v in s.stack[p..] then c else s.scc[v])
    && s'.sccNodes == s.sccNodes + Reverse(s.stack[p..])
  }

  lemma PoppedOne(s: State, c: nat)
    requires s.stack != [] && s.stack[|s.stack| - 1] < |s.scc|
    ensures Popped(s, PopOne(s, c), |s.stack| - 1, c)
  {
    var t := |s.stack| - 1;
    assert s.stack[t..] == [s.stack[t]];
    assert Reverse([s.stack[t]]) == [s.stack[t]] + Reverse([]);
  }

  lemma PoppedMore(s: State, s1: State, s2: State, p: nat, c: nat)
    requires s.stack != [] && s.stack[|s.stack| - 1] < |s.scc| && s1 == PopOne(s, c)
    requires Popped(s1, s2, p, c)
    ensures Popped(s, s2, p, c)
  {
    var t := |s.stack| - 1;
    var rest := s1.stack[p..];
    assert s.stack[p..] == rest + [s.stack[t]];
    assert (rest + [s.stack[t]])[..|rest|] == rest;
    assert s2.stack == s.stack[..p];
    assert s2.sccNodes == s.sccNodes + ([s.stack[t]] + Reverse(rest));
  }

  lemma {:induction false} PopSccPops(s: State, root: nat, c: nat, p: nat)
    requires p < |s.stack| && s.stack[p] == root
    requires forall q :: p < q < |s.stack| ==> s.stack[q] != root
    requires forall q :: 0 <= q < |s.stack| ==> s.stack[q] < |s.scc|
    ensures Popped(s, PopScc(s, root, c), p, c)
    decreases |s.stack|
  {
    PoppedOne(s, c);
    if s.stack[|s.stack| - 1] != root {
      PopSccPops(PopOne(s, c), root, c, p);
      PoppedMore(s, PopOne(s, c), PopScc(s, root, c), p, c);
    }
  }

  /** The stack nodes visited no earlier than `u` have been given number `c`. */
  ghost predicate Renumbered(idx: seq<int>, scc: seq<int>, scc': seq<int>, u: nat, c: nat) {
    && u < |idx| && |scc| == |scc'|
    && forall v: nat :: v < |scc| ==>
         scc'[v] == if OnStack(idx, scc, v) && idx[u] <= idx[v] then c else scc[v]
  }

  lemma UpperPart(idx: seq<int>, scc: seq<int>, stack: seq<nat>, p: nat, v: nat)
    requires StackOrder(idx, scc, stack) && p < |stack|
    ensures v in stack[p..] <==> OnStack(idx, scc, v) && idx[stack[p]] <= idx[v]
  {
    if v in stack[p..] {
      var q :| 0 <= q < |stack[p..]| && stack[p..][q] == v;
      assert stack[p + q] == v;
    }
    if OnStack(idx, scc, v) && idx[stack[p]] <= idx[v] {
      var q :| 0 <= q < |stack| && stack[q] == v;
      assert stack[p..][q - p] == v;
    }
  }

  lemma PoppedRenumbers(s: State, s': State, p: nat, c: nat)
    requires StackOrder(s.idx, s.scc, s.stack) && p < |s.stack| && Popped(s, s', p, c)
    ensures Renumbered(s.idx, s.scc, s'.scc, s.stack[p], c)
  {
    assert OnStack(s.idx, s.scc, s.stack[p]);
    forall v: nat | v < |s.scc|
      ensures s'.scc[v] == if OnStack(s.idx, s.scc, v) && s.idx[s.stack[p]] <= s.idx[v] then c else s.scc[v]
    {
      UpperPart(s.idx, s.scc, s.stack, p, v);
    }
  }

  lemma RootStack(idx: seq<int>, scc: seq<int>, scc': seq<int>, stack: seq<nat>, p: nat, c: nat)
    requires StackOrder(idx, scc, stack) && p < |stack| && Renumbered(idx, scc, scc', stack[p], c)
    ensures StackOrder(idx, scc', stack[..p])
  {
    forall v: nat | OnStack(idx, scc', v)
      ensures v in stack[..p]
    {
      assert OnStack(idx, scc, v);
      var q :| 0 <= q < |stack| && stack[q] == v;
      assert stack[..p][q] == v;
    }
  }

  lemma RootPath(idx: seq<int>, scc: seq<int>, scc': seq<int>, stack: seq<nat>, path: seq<nat>, p: nat, c: nat)
    requires StackOrder(idx, scc, stack) && PathOnStack(idx, scc, stack, path) && path != []
    requires p < |stack| && stack[p] == path[|path| - 1] && Renumbered(idx, scc, scc', stack[p], c)
    ensures PathOnStack(idx, scc', stack[..p], path[..|path| - 1])
  {
    var t := |path| - 1;
    assert t > 0 ==> idx[path[0]] < idx[path[t]];
    assert p > 0 ==> idx[stack[0]] < idx[stack[p]];
  }

  lemma RootRegion(idx: seq<int>, scc: seq<int>, scc': seq<int>, path: seq<nat>, c: nat, k: nat, x: nat)
    requires path != [] && Renumbered(idx, scc, scc', path[|path| - 1], c)
    requires Region(idx, scc', path[..|path| - 1], k, x)
    ensures Region(idx, scc, path, k, x)
  {
  }

  lemma RootConnected(es: multiset<Edge>, idx: seq<int>, scc: seq<int>, scc': seq<int>, path: seq<nat>, c: nat)
    requires Connected(es, idx, scc, path) && path != [] && Renumbered(idx, scc, scc', path[|path| - 1], c)
    ensures Connected(es, idx, scc', path[..|path| - 1])
  {
    var path' := path[..|path| - 1];
    forall k: nat, x: nat | Region(idx, scc', path', k, x)
      ensures Mutual(es, path'[k], x)
    {
      RootRegion(idx, scc, scc', path, c, k, x);
    }
  }

  lemma RootLow(es: multiset<Edge>, idx: seq<int>, low: seq<int>, scc: seq<int>, scc': seq<int>, u: nat, c: nat)
    requires LowReached(es, idx, low, scc) && Renumbered(idx, scc, scc', u, c)
    ensures LowReached(es, idx, low, scc')
  {
    forall x: nat | OnStack(idx, scc', x)
      ensures low[x] <= idx[x] && exists z: nat :: LowAt(es, idx, low, scc', x, z)
    {
      assert OnStack(idx, scc, x) && idx[x] < idx[u];
      assert low[x] <= idx[x];
      var z: nat :| LowAt(es, idx, low, scc, x, z);
      assert LowAt(es, idx, low, scc', x, z);
    }
  }

  /** Seen edges from the closing component lead into it or into earlier components. */
  lemma RootDoneNumbered(g: EdgeTable, n: nat, s: State, scc': seq<int>, path: seq<nat>)
    requires Sized(n, s) && s.dfs != [] && FramesInTable(g, s.dfs) && Top(s.dfs).edge >= Top(s.dfs).end
    requires path == PathOf(s.dfs)
    requires DoneVisited(g, s.idx, s.dfs) && DoneNumbered(g, s.idx, s.scc, s.dfs)
    requires DoneLow(g, s.idx, s.low, s.scc, s.dfs)
    requires Renumbered(s.idx, s.scc, scc', Top(s.dfs).node, |s.sccBase|)
    requires s.low[Top(s.dfs).node] == s.idx[Top(s.dfs).node]
    ensures DoneNumbered(g, s.idx, scc', s.dfs[..|s.dfs| - 1])
  {
    var t, u, dfs' := |s.dfs| - 1, Top(s.dfs).node, s.dfs[..|s.dfs| - 1];
    forall x: nat, e: nat | Done(g, s.idx, dfs', x, e) && scc'[x] != -1
      ensures g.edges[e].dst < n && -1 != scc'[g.edges[e].dst] <= scc'[x]
    {
      FinishDone(g, s.idx, s.dfs, x, e);
      var y := g.edges[e].dst;
      if s.scc[x] == -1 && s.scc[y] == -1 {
        assert OnStack(s.idx, s.scc, y);
        assert Region(s.idx, s.scc, path, t, x);
        assert s.low[u] <= s.idx[y];
      }
    }
  }

  lemma RootDoneLow(g: EdgeTable, s: State, scc': seq<int>, path: seq<nat>, c: nat)
    requires s.dfs != [] && FramesInTable(g, s.dfs) && Top(s.dfs).edge >= Top(s.dfs).end
    requires path == PathOf(s.dfs) && DoneLow(g, s.idx, s.low, s.scc, s.dfs)
    requires Renumbered(s.idx, s.scc, scc', Top(s.dfs).node, c)
    requires forall k :: 0 <= k < |s.dfs| ==> s.dfs[k].node < |s.low|
    ensures DoneLow(g, s.idx, s.low, scc', s.dfs[..|s.dfs| - 1])
  {
    var dfs' := s.dfs[..|s.dfs| - 1];
    PathOfInit(s.dfs);
    forall k: nat, x: nat, e: nat |
      Region(s.idx, scc', PathOf(dfs'), k, x) && Done(g, s.idx, dfs', x, e) && OnStack(s.idx, scc', g.edges[e].dst)
      ensures s.low[dfs'[k].node] <= s.idx[g.edges[e].dst]
    {
      FinishDone(g, s.idx, s.dfs, x, e);
      RootRegion(s.idx, s.scc, scc', path, c, k, x);
      assert OnStack(s.idx, s.scc, g.edges[e].dst);
    }
  }

  // ---- the components found

  ghost function NumberedSet(scc: seq<int>): set<nat> {
    set v: nat | v < |scc| && scc[v] != -1
  }

  /** No edge leaves the numbered nodes. */
  lemma NumberedClosed(g: EdgeTable, n: nat, s: State)
    requires ValidTable(g, n) && Sized(n, s)
    requires PathOnStack(s.idx, s.scc, s.stack, PathOf(s.dfs)) && DoneNumbered(g, s.idx, s.scc, s.dfs)
    ensures Closed(EdgesOf(g), NumberedSet(s.scc))
  {
    forall e | e in EdgesOf(g) && e.src in NumberedSet(s.scc)
      ensures e.dst in NumberedSet(s.scc)
    {
      var i :| 0 <= i < |g.edges| && g.edges[i] == e;
      forall k | 0 <= k < |s.dfs| ensures s.dfs[k].node != e.src {
        assert OnStack(s.idx, s.scc, PathOf(s.dfs)[k]);
      }
      assert Done(g, s.idx, s.dfs, e.src, i);
    }
  }

  lemma RootComponents(g: EdgeTable, n: nat, s: State, scc': seq<int>, path: seq<nat>)
    requires ValidTable(g, n) && Sized(n, s) && path == PathOf(s.dfs) && path != []
    requires PathOnStack(s.idx, s.scc, s.stack, path) && DoneNumbered(g, s.idx, s.scc, s.dfs)
    requires Connected(EdgesOf(g), s.idx, s.scc, path) && Components(EdgesOf(g), s.scc)
    requires Renumbered(s.idx, s.scc, scc', path[|path| - 1], |s.sccBase|)
    ensures Components(EdgesOf(g), scc')
  {
    var es, t := EdgesOf(g), |path| - 1;
    NumberedClosed(g, n, s);
    forall x: nat, y: nat | x < n && y < n && scc'[x] != -1 && scc'[y] != -1
      ensures scc'[x] == scc'[y] <==> Mutual(es, x, y)
    {
      if s.scc[x] == -1 && s.scc[y] == -1 {
        assert Region(s.idx, s.scc, path, t, x) && Region(s.idx, s.scc, path, t, y);
        MutualTransitive(es, x, path[t], y);
      } else if s.scc[x] == -1 && Reach(es, y, x) {
        ReachStaysInside(es, NumberedSet(s.scc), y, x);
      } else if s.scc[y] == -1 && Reach(es, x, y) {
        ReachStaysInside(es, NumberedSet(s.scc), x, y);
      }
    }
  }

  /** Appending the nodes of the next component as one more slice. */
  lemma AppendSlice(scc: seq<int>, nodes: seq<nat>, base: seq<nat>, scc': seq<int>, more: seq<nat>)
    requires Slices(scc, nodes, base) && |scc'| == |scc|
    requires forall v: nat :: v < |scc| ==> scc'[v] == if v in more then |base| else scc[v]
    requires forall k :: 0 <= k < |more| ==> more[k] < |scc| && scc[more[k]] == -1
    requires forall k, l :: 0 <= k < l < |more| ==> more[k] != more[l]
    ensures Slices(scc', nodes + more, base + [|nodes|])
  {
    var nodes', base' := nodes + more, base + [|nodes|];
    forall q | 0 <= q < |nodes'|
      ensures nodes'[q] < |scc'| && 0 <= scc'[nodes'[q]] < |base'|
      ensures base'[scc'[nodes'[q]]] <= q < SliceEnd(base', |nodes'|, scc'[nodes'[q]])
    {
      if q < |nodes| {
        assert nodes'[q] == nodes[q] && nodes[q] !in more;
      } else {
        assert nodes'[q] == more[q - |nodes|];
      }
    }
    forall v | 0 <= v < |scc'| && scc'[v] != -1
      ensures v in nodes'
    {
      assert v in more || v in nodes;
    }
    forall q, r | 0 <= q < r < |nodes'|
      ensures nodes'[q] != nodes'[r]
    {
      if q < |nodes| <= r {
        assert nodes'[q] == nodes[q] && nodes'[r] == more[r - |nodes|];
      }
    }
  }

  lemma ReverseMembers(xs: seq<nat>, v: nat)
    ensures v in Reverse(xs) <==> v in xs
  {
    if v in Reverse(xs) {
      var k :| 0 <= k < |Reverse(xs)| && Reverse(xs)[k] == v;
      ReverseAt(xs, k);
    }
    if v in xs {
      var k :| 0 <= k < |xs| && xs[k] == v;
      ReverseAt(xs, |xs| - 1 - k);
    }
  }

  lemma RootSlices(n: nat, s: State, s': State, p: nat)
    requires Sized(n, s) && Slices(s.scc, s.sccNodes, s.sccBase) && StackOrder(s.idx, s.scc, s.stack)
    requires p < |s.stack|
    requires Popped(s.(sccBase := s.sccBase + [|s.sccNodes|]), s', p, |s.sccBase|)
    ensures Slices(s'.scc, s'.sccNodes, s'.sccBase)
  {
    var popped := s.stack[p..];
    var more := Reverse(popped);
    forall k | 0 <= k < |more|
      ensures more[k] == popped[|popped| - 1 - k] == s.stack[|s.stack| - 1 - k]
    {
      ReverseAt(popped, k);
    }
    forall k, l | 0 <= k < l < |more|
      ensures more[k] != more[l]
    {
      assert s.idx[s.stack[|s.stack| - 1 - l]] < s.idx[s.stack[|s.stack| - 1 - k]];
    }
    forall v: nat | v < |s.scc|
      ensures s'.scc[v] == if v in more then |s.sccBase| else s.scc[v]
    {
      ReverseMembers(popped, v);
    }
    AppendSlice(s.scc, s.sccNodes, s.sccBase, s'.scc, more);
  }

  /** What closing a component leaves on the stack, and whom it numbers. */
  lemma ClosePops(s: State, p: nat)
    requires StackOrder(s.idx, s.scc, s.stack) && p < |s.stack|
    requires s.stack[p] < |s.low| && s.low[s.stack[p]] == s.idx[s.stack[p]]
    requires forall q :: 0 <= q < |s.stack| ==> s.stack[q] < |s.scc|
    ensures var s' := CloseComponent(s, s.stack[p]);
            && s'.stack == s.stack[..p]
            && Popped(s.(sccBase := s.sccBase + [|s.sccNodes|]), s', p, |s.sccBase|)
            && Renumbered(s.idx, s.scc, s'.scc, s.stack[p], |s.sccBase|)
  {
    var s0 := s.(sccBase := s.sccBase + [|s.sccNodes|]);
    PopSccPops(s0, s.stack[p], |s.sccBase|, p);
    PoppedRenumbers(s0, CloseComponent(s, s.stack[p]), p, |s.sccBase|);
  }

  /** The unconditional propagation to the parent changes nothing when a component was just closed. */
  lemma ClosedChildKeepsLow(g: EdgeTable, n: nat, s: State)
    requires Sized(n, s) && s.dfs != [] && InBounds(g, n, s)
    requires PathOnStack(s.idx, s.scc, s.stack, PathOf(s.dfs)) && LowReached(EdgesOf(g), s.idx, s.low, s.scc)
    requires s.low[Top(s.dfs).node] == s.idx[Top(s.dfs).node]
    ensures PopFrame(CloseComponent(s, Top(s.dfs).node)).low == s.low
  {
    var path, t := PathOf(s.dfs), |s.dfs| - 1;
    if t > 0 {
      assert OnStack(s.idx, s.scc, path[t - 1]);
      assert s.low[path[t - 1]] <= s.idx[path[t - 1]] < s.idx[path[t]];
    }
  }

  lemma FinishRootKeepsInv(g: EdgeTable, n: nat, s: State, p: nat)
    requires Inv(g, n, s) && InBounds(g, n, s) && s.dfs != [] && Top(s.dfs).edge >= Top(s.dfs).end
    requires p < |s.stack| && s.stack[p] == Top(s.dfs).node
    requires s.low[Top(s.dfs).node] == s.idx[Top(s.dfs).node]
    ensures Inv(g, n, PopFrame(CloseComponent(s, Top(s.dfs).node)))
  {
    hide StackOrder, PathOnStack, Connected, LowReached, DoneVisited, DoneNumbered, DoneLow, Components, Slices;
    var u, c, path := Top(s.dfs).node, |s.sccBase|, PathOf(s.dfs);
    ClosePops(s, p);
    var s1 := CloseComponent(s, u);
    ClosedChildKeepsLow(g, n, s);
    RootStack(s.idx, s.scc, s1.scc, s.stack, p, c);
    RootPath(s.idx, s.scc, s1.scc, s.stack, path, p, c);
    RootConnected(EdgesOf(g), s.idx, s.scc, s1.scc, path, c);
    RootLow(EdgesOf(g), s.idx, s.low, s.scc, s1.scc, u, c);
    RootDoneNumbered(g, n, s, s1.scc, path);
    FinishDoneNumbered(g, n, s);
    RootDoneLow(g, s, s1.scc, path, c);
    RootComponents(g, n, s, s1.scc, path);
    RootSlices(n, s, s1, p);
    PathOfInit(s.dfs);
  }

  // ---- the invariant over whole runs ----------------------------------------------

  function Initial(n: nat): State {
    State(seq(n, _ => -1), seq(n, _ => -1), seq(n, _ => -1), [], [], [], [], 0)
  }

  lemma InitialInv(g: EdgeTable, n: nat)
    requires ValidTable(g, n)
    ensures Inv(g, n, Initial(n))
  {
  }

  lemma SeedKeepsInv(g: EdgeTable, n: nat, s: State, root: nat)
    requires Inv(g, n, s) && s.dfs == [] && root < n && s.idx[root] == -1
    ensures Inv(g, n, Visit(g, s, root))
  {
    VisitKeepsInv(g, n, s, [], root);
  }

  lemma TreeEdgeKeepsInv(g: EdgeTable, n: nat, s: State)
    requires Inv(g, n, s) && InBounds(g, n, s) && s.dfs != [] && Top(s.dfs).edge < Top(s.dfs).end
    requires s.idx[g.edges[Top(s.dfs).edge].dst] == -1
    ensures Inv(g, n, Visit(g, s.(dfs := Advance(s.dfs)), g.edges[Top(s.dfs).edge].dst))
  {
    TopEdge(g, n, s);
    VisitKeepsInv(g, n, s, Advance(s.dfs), g.edges[Top(s.dfs).edge].dst);
  }

  lemma FinishKeepsInv(g: EdgeTable, n: nat, s: State)
    requires Inv(g, n, s) && InBounds(g, n, s) && s.dfs != [] && Top(s.dfs).edge >= Top(s.dfs).end
    ensures Inv(g, n, PopFrame(CloseComponent(s, Top(s.dfs).node)))
  {
    hide Inv;
    var u := Top(s.dfs).node;
    if s.low[u] != s.idx[u] {
      FinishInnerKeepsInv(g, n, s);
    } else {
      var p :| 0 <= p < |s.stack| && s.stack[p] == u;
      FinishRootKeepsInv(g, n, s, p);
    }
  }

  /** Every iteration keeps the search invariant, whichever branch it takes. */
  lemma StepKeepsInv(g: EdgeTable, n: nat, s: State)
    requires Inv(g, n, s) && InBounds(g, n, s) && s.dfs != []
    ensures Inv(g, n, Step(g, n, s))
  {
    hide Inv;
    if Top(s.dfs).edge >= Top(s.dfs).end {
      FinishKeepsInv(g, n, s);
    } else if s.idx[g.edges[Top(s.dfs).edge].dst] != -1 {
      SeenEdgeKeepsInv(g, n, s);
    } else {
      TreeEdgeKeepsInv(g, n, s);
    }
  }
}
