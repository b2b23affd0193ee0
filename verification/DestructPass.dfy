/**
 One destruct pass of a collection: build, search, emit, clean up. What it promises is
 said here in terms of the references between boxes alone.
 */
module DestructPass {
  import opened BoxHeaders
  import opened SeqSlices
  import opened Reachability
  import opened TarjanSteps
  import opened TarjanSearch
  import opened DestructOrder
  import opened DestructGraphs

  // ---- reachability between boxes ---------------------------------------------

  /** `steps` are positions in `refs` of references that lead from `a` to `b`. */
  ghost predicate RefPath(refs: seq<Ref>, a: Box, steps: seq<nat>, b: Box)
    decreases |steps|
  {
    if steps == [] then a == b
    else steps[0] < |refs| && refs[steps[0]].src == a && RefPath(refs, refs[steps[0]].dst, steps[1..], b)
  }

  ghost predicate RefReach(refs: seq<Ref>, a: Box, b: Box) {
    exists steps :: RefPath(refs, a, steps, b)
  }

  /** `a` holds on to `b`, and not the other way round. */
  ghost predicate Owns(refs: seq<Ref>, a: Box, b: Box) {
    RefReach(refs, a, b) && !RefReach(refs, b, a)
  }

  lemma {:induction false} PathIsRefPath(
      nodes: seq<DestructGraphNode>, edges: seq<Edge>, refs: seq<Ref>, u: nat, via: seq<nat>, v: nat)
    returns (steps: seq<nat>)
    requires Mirrors(nodes, edges, refs) && u < |nodes|
    requires Path(multiset(edges), u, via, v)
    ensures v < |nodes| && RefPath(refs, nodes[u].box, steps, nodes[v].box)
    decreases |via|
  {
    if via == [] {
      steps := [];
    } else {
      var e :| 0 <= e < |edges| && edges[e] == Edge(u, via[0]);
      assert Mirrors1(nodes, edges[e], refs[e]);
      var rest := PathIsRefPath(nodes, edges, refs, via[0], via[1..], v);
      steps := [e] + rest;
      assert steps[1..] == rest;
    }
  }

  lemma {:induction false} RefPathIsPath(
      nodes: seq<DestructGraphNode>, edges: seq<Edge>, refs: seq<Ref>, u: nat, steps: seq<nat>, v: nat)
    returns (via: seq<nat>)
    requires Mirrors(nodes, edges, refs) && u < |nodes| && v < |nodes|
    requires forall j, k :: 0 <= j < k < |nodes| ==> nodes[j].box != nodes[k].box
    requires RefPath(refs, nodes[u].box, steps, nodes[v].box)
    ensures Path(multiset(edges), u, via, v)
    decreases |steps|
  {
    if steps == [] {
      via := [];
    } else {
      var e := steps[0];
      assert Mirrors1(nodes, edges[e], refs[e]);
      var w := edges[e].dst;
      assert edges[e] == Edge(u, w);
      var rest := RefPathIsPath(nodes, edges, refs, w, steps[1..], v);
      via := [w] + rest;
      assert via[1..] == rest;
    }
  }

  /** Reachability along the stored edges is reachability along the references. */
  lemma ReachIsRefReach(nodes: seq<DestructGraphNode>, edges: seq<Edge>, refs: seq<Ref>, u: nat, v: nat)
    requires Mirrors(nodes, edges, refs) && u < |nodes| && v < |nodes|
    requires forall j, k :: 0 <= j < k < |nodes| ==> nodes[j].box != nodes[k].box
    ensures Reach(multiset(edges), u, v) <==> RefReach(refs, nodes[u].box, nodes[v].box)
  {
    if Reach(multiset(edges), u, v) {
      var via :| Path(multiset(edges), u, via, v);
      var steps := PathIsRefPath(nodes, edges, refs, u, via, v);
    }
    if RefReach(refs, nodes[u].box, nodes[v].box) {
      var steps :| RefPath(refs, nodes[u].box, steps, nodes[v].box);
      var via := RefPathIsPath(nodes, edges, refs, u, steps, v);
    }
  }

  // ---- what the output order means for the boxes ---------------------------------

  ghost predicate Permutes(order: seq<nat>, m: nat) {
    && |order| == m
    && (forall q :: 0 <= q < m ==> order[q] < m)
    && (forall p, q :: 0 <= p < q < m ==> order[p] != order[q])
  }

  /** An owner is listed before what it owns. */
  ghost predicate OwnersFirst(refs: seq<Ref>, boxes: seq<Box>, order: seq<nat>) {
    forall a: nat, b: nat :: a < |boxes| && b < |boxes| && Owns(refs, boxes[a], boxes[b]) ==> Before(order, a, b)
  }

  /** One of the first `k` candidates holds on to `b`. */
  ghost predicate HeldByFirst(refs: seq<Ref>, boxes: seq<Box>, k: nat, b: Box)
    requires k <= |boxes|
  {
    exists c: nat :: c < k && RefReach(refs, boxes[c], b)
  }

  /** A candidate that none of the first `k` holds on to is listed before one that some of them holds on to. */
  ghost predicate LaterHeldFirst(refs: seq<Ref>, boxes: seq<Box>, order: seq<nat>) {
    forall k: nat, a: nat, b: nat {:trigger HeldByFirst(refs, boxes, k, boxes[a]), HeldByFirst(refs, boxes, k, boxes[b])} ::
      (k <= |boxes| && a < |boxes| && b < |boxes| &&
       HeldByFirst(refs, boxes, k, boxes[a]) && !HeldByFirst(refs, boxes, k, boxes[b])) ==> Before(order, b, a)
  }

  /** In particular the later of two candidates goes first, unless a candidate up to the earlier one holds on to it. */
  lemma NewestFirstUnlessHeld(refs: seq<Ref>, boxes: seq<Box>, order: seq<nat>, i: nat, j: nat)
    requires LaterHeldFirst(refs, boxes, order) && i < j < |boxes|
    requires !HeldByFirst(refs, boxes, i + 1, boxes[j])
    ensures Before(order, j, i)
  {
    assert RefPath(refs, boxes[i], [], boxes[i]);
    assert RefReach(refs, boxes[i], boxes[i]);
    assert HeldByFirst(refs, boxes, i + 1, boxes[i]);
  }

  ghost predicate InLoop(refs: seq<Ref>, a: Box, b: Box) {
    RefReach(refs, a, b) && RefReach(refs, b, a)
  }

  /** The candidates of one loop stand together, newest first. */
  ghost predicate LoopsTogether(refs: seq<Ref>, boxes: seq<Box>, order: seq<nat>) {
    && (forall q :: 0 <= q < |order| ==> order[q] < |boxes|)
    && forall p, q, r :: 0 <= p <= q < r < |order| && InLoop(refs, boxes[order[p]], boxes[order[r]]) ==>
         InLoop(refs, boxes[order[p]], boxes[order[q]]) && order[p] >= order[q] > order[r]
  }

  lemma EmitOrderPermutes(scc: seq<int>, m: nat, order: seq<nat>)
    requires EmitOrder(scc, m, order)
    ensures Permutes(order, m)
  {
    forall p, q | 0 <= p < q < m ensures order[p] != order[q] {
      assert Precedes(scc, order[p], order[q]);
    }
  }

  lemma HeldIsFromFirst(g: EdgeTable, refs: seq<Ref>, boxes: seq<Box>, k: nat, v: nat)
    requires k <= |boxes| && v < |boxes|
    requires forall c: nat, d: nat :: c < |boxes| && d < |boxes| ==>
               (Reach(EdgesOf(g), c, d) <==> RefReach(refs, boxes[c], boxes[d]))
    ensures FromFirst(EdgesOf(g), k, v) <==> HeldByFirst(refs, boxes, k, boxes[v])
  {
    hide Reach, RefReach;
  }

  lemma OrderMeans(nodes: seq<DestructGraphNode>, g: EdgeTable, t: State, edges: seq<Edge>, refs: seq<Ref>,
                   boxes: seq<Box>, order: seq<nat>)
    requires Mirrors(nodes, edges, refs) && multiset(g.edges) == multiset(edges)
    requires forall j, k :: 0 <= j < k < |nodes| ==> nodes[j].box != nodes[k].box
    requires |boxes| <= |nodes| && forall k :: 0 <= k < |boxes| ==> boxes[k] == nodes[k].box
    requires Searched(g, |nodes|, t, |boxes|) && EmitOrder(t.scc, |boxes|, order)
    ensures OwnersFirst(refs, boxes, order)
    ensures LaterHeldFirst(refs, boxes, order)
    ensures LoopsTogether(refs, boxes, order)
  {
    hide Reach, RefReach, Searched, EmitOrder, Mirrors, Before, FromFirst, HeldByFirst;
    var m := |boxes|;
    forall u: nat, v: nat | u < m && v < m
      ensures Reach(EdgesOf(g), u, v) <==> RefReach(refs, boxes[u], boxes[v])
    {
      ReachIsRefReach(nodes, edges, refs, u, v);
    }
    forall a: nat, b: nat | a < m && b < m && Owns(refs, boxes[a], boxes[b])
      ensures Before(order, a, b)
    {
      OwnerBeforeOwned(g, |nodes|, t, m, order, a, b);
    }
    forall k: nat, v: nat | k <= m && v < m
      ensures FromFirst(EdgesOf(g), k, v) <==> HeldByFirst(refs, boxes, k, boxes[v])
    {
      HeldIsFromFirst(g, refs, boxes, k, v);
    }
    forall k: nat, a: nat, b: nat | k <= m && a < m && b < m &&
      HeldByFirst(refs, boxes, k, boxes[a]) && !HeldByFirst(refs, boxes, k, boxes[b])
      ensures Before(order, b, a)
    {
      DestructOrder.LaterHeldFirst(g, |nodes|, t, m, order, k, a, b);
    }
    EmitOrderPermutes(t.scc, m, order);
    forall p, q, r | 0 <= p <= q < r < m && InLoop(refs, boxes[order[p]], boxes[order[r]])
      ensures InLoop(refs, boxes[order[p]], boxes[order[q]]) && order[p] >= order[q] > order[r]
    {
      LoopIsBlock(g, |nodes|, t, m, order, p, q, r);
    }
  }

  lemma NoRefsNoReach(refs: seq<Ref>, a: Box, b: Box)
    requires forall e :: 0 <= e < |refs| ==> refs[e].src != a
    ensures RefReach(refs, a, b) <==> a == b
  {
    if RefReach(refs, a, b) {
      var steps :| RefPath(refs, a, steps, b);
    } else {
      assert RefPath(refs, a, [], b) <==> a == b;
    }
  }

  /** What the references leave open: of two objects held by the same candidate either may come first. */
  lemma OrderLeftOpen(a: Box, b: Box, c: Box, order: seq<nat>)
    requires a != b && a != c && b != c
    requires order == [0, 1, 2] || order == [0, 2, 1]
    ensures var refs, boxes := [Ref(a, b), Ref(a, c)], [a, b, c];
            OwnersFirst(refs, boxes, order) && LaterHeldFirst(refs, boxes, order) && LoopsTogether(refs, boxes, order)
  {
    var refs, boxes := [Ref(a, b), Ref(a, c)], [a, b, c];
    NoRefsNoReach(refs, b, a);
    NoRefsNoReach(refs, b, c);
    NoRefsNoReach(refs, c, a);
    NoRefsNoReach(refs, c, b);
    assert RefPath(refs, a, [], a);
    assert RefPath(refs, b, [], b) && [0][1..] == [] && RefPath(refs, a, [0], b);
    assert RefPath(refs, c, [], c) && [1][1..] == [] && RefPath(refs, a, [1], c);
    assert RefReach(refs, a, a) && RefReach(refs, a, b) && RefReach(refs, a, c);
    hide RefReach;
    forall k: nat, v: nat | 0 < k <= 3 && v < 3
      ensures HeldByFirst(refs, boxes, k, boxes[v])
    {
      assert RefReach(refs, boxes[0], boxes[v]);
    }
  }

  // ---- the pass ---------------------------------------------------------------------

  ghost function Reordered(ifaces: seq<IfacePtr>, order: seq<nat>): (r: seq<IfacePtr>)
    requires forall k :: 0 <= k < |order| ==> order[k] < |ifaces|
    ensures |r| == |order| && forall k :: 0 <= k < |r| ==> r[k] == ifaces[order[k]]
  {
    seq(|order|, k requires 0 <= k < |order| => ifaces[order[k]])
  }

  ghost function Dropped(order: seq<nat>, p: nat): (rest: seq<nat>)
    requires p < |order|
    ensures |rest| == |order| - 1 && forall q :: 0 <= q < |rest| ==> rest[q] == order[if q < p then q else q + 1]
  {
    order[..p] + order[p + 1..]
  }

  lemma DroppedPermutes(order: seq<nat>, m: nat, p: nat)
    requires Permutes(order, m) && p < m && order[p] == m - 1
    ensures Permutes(Dropped(order, p), m - 1)
  {
  }

  lemma ReorderedSplits(ifaces: seq<IfacePtr>, order: seq<nat>, p: nat)
    requires Permutes(order, |ifaces|) && p < |ifaces| && order[p] == |ifaces| - 1
    requires Permutes(Dropped(order, p), |ifaces| - 1)
    ensures multiset(Reordered(ifaces, order)) ==
            multiset(Reordered(ifaces[..|ifaces| - 1], Dropped(order, p))) + multiset{ifaces[|ifaces| - 1]}
  {
    var all, less := Reordered(ifaces, order), Reordered(ifaces[..|ifaces| - 1], Dropped(order, p));
    hide Permutes;
    WithoutOne(all, less, p);
  }

  /** A reordered list is a permutation: nothing is lost or listed twice. */
  lemma {:induction false} ReorderedConserves(ifaces: seq<IfacePtr>, order: seq<nat>)
    requires Permutes(order, |ifaces|)
    ensures multiset(Reordered(ifaces, order)) == multiset(ifaces)
    decreases |ifaces|
  {
    var m := |ifaces|;
    if m > 0 {
      var p := PositionOfLast(order, m);
      DroppedPermutes(order, m, p);
      ReorderedConserves(ifaces[..m - 1], Dropped(order, p));
      ReorderedSplits(ifaces, order, p);
      assert ifaces == ifaces[..m - 1] + [ifaces[m - 1]];
    }
  }

  lemma PositionOfLast(order: seq<nat>, m: nat) returns (p: nat)
    requires Permutes(order, m) && m > 0
    ensures p < m && order[p] == m - 1
  {
    if m - 1 in order {
      p :| 0 <= p < m && order[p] == m - 1;
    } else {
      forall q | 0 <= q < |order| ensures order[q] < m - 1 {
        assert order[q] in order;
      }
      DistinctBound(order, m - 1);
      assert false;
    }
  }

  /** All that is marked for the candidates of a destruct pass. */
  ghost function MarkingFor(destructArray: seq<IfacePtr>, marks: seq<seq<MarkOp>>, cycle: seq<MarkOp>): seq<MarkOp>
    requires |destructArray| == |marks|
    requires forall k :: 0 <= k < |destructArray| ==> destructArray[k].IfacePtr?
  {
    MarkingOf(BoxesOfAll(destructArray), marks) + cycle
  }

  /** The references a destruct pass works with, as the marking of its candidates reports them. */
  ghost function RefsFor(destructArray: seq<IfacePtr>, marks: seq<seq<MarkOp>>, cycle: seq<MarkOp>): seq<Ref>
    requires 0 < |destructArray| == |marks|
    requires forall k :: 0 <= k < |destructArray| ==> destructArray[k].IfacePtr?
  {
    AllRefs(BoxesOfAll(destructArray), marks, cycle)
  }

  // ---- the same by positions in the marking ------------------------------------------

  /** A step of the marking: of the part of a candidate, or, as part `|marks|`, of the mark cycle. */
  datatype Position = Position(part: nat, step: nat)

  ghost predicate InMarking(marks: seq<seq<MarkOp>>, cycle: seq<MarkOp>, at: Position) {
    at.part <= |marks| && at.step < if at.part < |marks| then |marks[at.part]| else |cycle|
  }

  ghost function OpAt(marks: seq<seq<MarkOp>>, cycle: seq<MarkOp>, at: Position): MarkOp
    requires InMarking(marks, cycle, at)
  {
    if at.part < |marks| then marks[at.part][at.step] else cycle[at.step]
  }

  /** The part of a candidate starts with it current, the mark cycle with the box that was current last. */
  ghost predicate CurrentIs(boxes: seq<Box>, marks: seq<seq<MarkOp>>, cycle: seq<MarkOp>, at: Position, x: Box)
    requires 0 < |boxes| == |marks| && InMarking(marks, cycle, at)
  {
    if at.part < |marks| then CurrentAt(marks[at.part], at.step, boxes[at.part], x)
    else
      var last := |marks| - 1;
      || (exists j :: 0 <= j < at.step && cycle[j] == SetCurrent(x) && forall i :: j < i < at.step ==> !cycle[i].SetCurrent?)
      || ((forall i :: 0 <= i < at.step ==> !cycle[i].SetCurrent?) &&
          CurrentAt(marks[last], |marks[last]|, boxes[last], x))
  }

  /** The step reports a reference from `x` to `y`. */
  ghost predicate HoldsAt(boxes: seq<Box>, marks: seq<seq<MarkOp>>, cycle: seq<MarkOp>, at: Position, x: Box, y: Box)
    requires 0 < |boxes| == |marks|
  {
    && InMarking(marks, cycle, at) && x != y
    && (|| OpAt(marks, cycle, at) == AddEdgeFrom(x, y)
        || (OpAt(marks, cycle, at) == AddEdge(y) && CurrentIs(boxes, marks, cycle, at, x)))
  }

  ghost predicate HeldBy(boxes: seq<Box>, marks: seq<seq<MarkOp>>, cycle: seq<MarkOp>, x: Box, y: Box)
    requires 0 < |boxes| == |marks|
  {
    exists at :: HoldsAt(boxes, marks, cycle, at, x, y)
  }

  /** Some part of the marking sets the mark `f` on `b`. */
  ghost predicate MarkedBy(marks: seq<seq<MarkOp>>, cycle: seq<MarkOp>, b: Box, f: BoxFlag) {
    (exists i :: 0 <= i < |marks| && SetsMark(marks[i], b, f)) || SetsMark(cycle, b, f)
  }

  /** References reported at the positions `chain` lead from `x` to `y`. */
  ghost predicate HoldsAlong(boxes: seq<Box>, marks: seq<seq<MarkOp>>, cycle: seq<MarkOp>,
                             x: Box, chain: seq<Position>, y: Box)
    requires 0 < |boxes| == |marks|
    decreases |chain|
  {
    if chain == [] then x == y
    else
      && InMarking(marks, cycle, chain[0])
      && var next := OpAt(marks, cycle, chain[0]).box;
         HoldsAt(boxes, marks, cycle, chain[0], x, next) && HoldsAlong(boxes, marks, cycle, next, chain[1..], y)
  }

  ghost predicate HoldsOn(boxes: seq<Box>, marks: seq<seq<MarkOp>>, cycle: seq<MarkOp>, x: Box, y: Box)
    requires 0 < |boxes| == |marks|
  {
    exists chain :: HoldsAlong(boxes, marks, cycle, x, chain, y)
  }

  ghost function AllRefs(boxes: seq<Box>, marks: seq<seq<MarkOp>>, cycle: seq<MarkOp>): seq<Ref>
    requires 0 < |boxes| == |marks|
  {
    RefsOf(MarkingOf(boxes, marks) + cycle, boxes[0])
  }

  lemma {:induction false} MarkingReports(boxes: seq<Box>, marks: seq<seq<MarkOp>>, n: nat, x: Box, y: Box)
    requires n <= |boxes| == |marks| && boxes != []
    ensures Ref(x, y) in RefsOf(MarkingOf(boxes[..n], marks), boxes[0]) <==>
            x != y && exists i :: 0 <= i < n && Reports(marks[i], boxes[i], x, y)
  {
    hide RefsOf, CurrentAfter, Reports, MarkingOf;
    if n == 0 {
      NoMarking(boxes, marks);
    } else {
      MarkingReports(boxes, marks, n - 1, x, y);
      MarkingNext(boxes, marks, n - 1);
      RefsAreReported(marks[n - 1], boxes[n - 1], x, y);
    }
  }

  lemma CurrentAtEnd(ops: seq<MarkOp>, start: Box, b: Box)
    ensures CurrentAt(ops, |ops|, start, b) <==> b == CurrentAfter(ops, start)
  {
    CurrentIsLastSet(ops, |ops|, start, b);
    assert ops[..|ops|] == ops;
  }

  ghost predicate HoldsIn(boxes: seq<Box>, marks: seq<seq<MarkOp>>, cycle: seq<MarkOp>, part: nat, x: Box, y: Box)
    requires 0 < |boxes| == |marks|
  {
    exists k: nat :: HoldsAt(boxes, marks, cycle, Position(part, k), x, y)
  }

  lemma HeldInPart(boxes: seq<Box>, marks: seq<seq<MarkOp>>, cycle: seq<MarkOp>, x: Box, y: Box, i: nat)
    requires 0 < |boxes| == |marks| && i < |marks| && x != y
    ensures Reports(marks[i], boxes[i], x, y) <==> HoldsIn(boxes, marks, cycle, i, x, y)
  {
    hide CurrentAt;
    forall k: nat | k < |marks[i]|
      ensures ReportsAt(marks[i], k, boxes[i], x, y) <==> HoldsAt(boxes, marks, cycle, Position(i, k), x, y)
    {
    }
  }

  lemma HeldInCycle(boxes: seq<Box>, marks: seq<seq<MarkOp>>, cycle: seq<MarkOp>, x: Box, y: Box, c: Box)
    requires 0 < |boxes| == |marks| && x != y
    requires c == CurrentAfter(marks[|marks| - 1], boxes[|marks| - 1])
    ensures Reports(cycle, c, x, y) <==> HoldsIn(boxes, marks, cycle, |marks|, x, y)
  {
    CurrentAtEnd(marks[|marks| - 1], boxes[|marks| - 1], x);
    forall k: nat | k < |cycle|
      ensures ReportsAt(cycle, k, c, x, y) <==> HoldsAt(boxes, marks, cycle, Position(|marks|, k), x, y)
    {
    }
  }

  /** The references that the pass works with are those that the marking reports. */
  lemma RefsAreHeld(boxes: seq<Box>, marks: seq<seq<MarkOp>>, cycle: seq<MarkOp>, x: Box, y: Box)
    requires 0 < |boxes| == |marks|
    ensures Ref(x, y) in AllRefs(boxes, marks, cycle) <==> HeldBy(boxes, marks, cycle, x, y)
  {
    hide RefsOf, CurrentAfter, Reports, MarkingOf, HoldsAt, HoldsIn, HeldBy;
    var n := |marks|;
    MarkingReports(boxes, marks, n, x, y);
    assert boxes[..n] == boxes;
    MarksAppend(MarkingOf(boxes, marks), cycle, boxes[0]);
    MarkingNext(boxes, marks, n - 1);
    var c := CurrentAfter(marks[n - 1], boxes[n - 1]);
    RefsAreReported(cycle, c, x, y);
    if x != y {
      HeldInCycle(boxes, marks, cycle, x, y, c);
      forall i: nat | i < n
        ensures Reports(marks[i], boxes[i], x, y) <==> HoldsIn(boxes, marks, cycle, i, x, y)
      {
        HeldInPart(boxes, marks, cycle, x, y, i);
      }
      HeldByParts(boxes, marks, cycle, x, y);
    } else {
      NothingHeldBySelf(boxes, marks, cycle, x);
    }
  }

  lemma HeldByParts(boxes: seq<Box>, marks: seq<seq<MarkOp>>, cycle: seq<MarkOp>, x: Box, y: Box)
    requires 0 < |boxes| == |marks|
    ensures HeldBy(boxes, marks, cycle, x, y) <==>
            exists i: nat :: i <= |marks| && HoldsIn(boxes, marks, cycle, i, x, y)
  {
    if at :| HoldsAt(boxes, marks, cycle, at, x, y) {
      assert at == Position(at.part, at.step);
      assert HoldsIn(boxes, marks, cycle, at.part, x, y);
    }
  }

  lemma NothingHeldBySelf(boxes: seq<Box>, marks: seq<seq<MarkOp>>, cycle: seq<MarkOp>, x: Box)
    requires 0 < |boxes| == |marks|
    ensures !HeldBy(boxes, marks, cycle, x, x)
  {
  }

  lemma {:induction false} MarkingMarksBox(boxes: seq<Box>, marks: seq<seq<MarkOp>>, n: nat, b: Box, f: BoxFlag)
    requires n <= |boxes| == |marks| && boxes != []
    ensures f in MarksOn(MarkingOf(boxes[..n], marks), b) <==> exists i :: 0 <= i < n && SetsMark(marks[i], b, f)
  {
    hide MarksOn, SetsMark, MarkingOf;
    if n == 0 {
      NoMarking(boxes, marks);
    } else {
      MarkingMarksBox(boxes, marks, n - 1, b, f);
      MarkingMarks(boxes, marks, n - 1, b);
      MarksAreSet(marks[n - 1], b, f);
    }
  }

  /** The marks that the pass leaves are those that the marking sets. */
  lemma MarksAreMarked(boxes: seq<Box>, marks: seq<seq<MarkOp>>, cycle: seq<MarkOp>, b: Box, f: BoxFlag)
    requires 0 < |boxes| == |marks|
    ensures f in MarksOn(MarkingOf(boxes, marks) + cycle, b) <==> MarkedBy(marks, cycle, b, f)
  {
    hide MarksOn, SetsMark, MarkingOf;
    MarkingMarksBox(boxes, marks, |marks|, b, f);
    assert boxes[..|marks|] == boxes;
    MarksOnAppend(MarkingOf(boxes, marks), cycle, b);
    MarksAreSet(cycle, b, f);
  }

  lemma LeadsToBox(boxes: seq<Box>, marks: seq<seq<MarkOp>>, cycle: seq<MarkOp>, at: Position, x: Box, y: Box)
    requires 0 < |boxes| == |marks| && HoldsAt(boxes, marks, cycle, at, x, y)
    ensures InMarking(marks, cycle, at) && OpAt(marks, cycle, at).box == y
  {
  }

  lemma {:induction false} RefPathIsChain(boxes: seq<Box>, marks: seq<seq<MarkOp>>, cycle: seq<MarkOp>,
                                          a: Box, steps: seq<nat>, b: Box) returns (chain: seq<Position>)
    requires 0 < |boxes| == |marks| && RefPath(AllRefs(boxes, marks, cycle), a, steps, b)
    ensures HoldsAlong(boxes, marks, cycle, a, chain, b)
    decreases |steps|
  {
    hide AllRefs, HoldsAt;
    if steps == [] {
      chain := [];
    } else {
      var refs := AllRefs(boxes, marks, cycle);
      var next := refs[steps[0]].dst;
      assert Ref(a, next) == refs[steps[0]];
      RefsAreHeld(boxes, marks, cycle, a, next);
      var at :| HoldsAt(boxes, marks, cycle, at, a, next);
      LeadsToBox(boxes, marks, cycle, at, a, next);
      var rest := RefPathIsChain(boxes, marks, cycle, next, steps[1..], b);
      chain := [at] + rest;
      assert chain[1..] == rest;
    }
  }

  lemma {:induction false} ChainIsRefPath(boxes: seq<Box>, marks: seq<seq<MarkOp>>, cycle: seq<MarkOp>,
                                          a: Box, chain: seq<Position>, b: Box) returns (steps: seq<nat>)
    requires 0 < |boxes| == |marks| && HoldsAlong(boxes, marks, cycle, a, chain, b)
    ensures RefPath(AllRefs(boxes, marks, cycle), a, steps, b)
    decreases |chain|
  {
    hide AllRefs, HoldsAt;
    if chain == [] {
      steps := [];
    } else {
      var refs := AllRefs(boxes, marks, cycle);
      var next := OpAt(marks, cycle, chain[0]).box;
      assert HeldBy(boxes, marks, cycle, a, next);
      RefsAreHeld(boxes, marks, cycle, a, next);
      var e: nat :| e < |refs| && refs[e] == Ref(a, next);
      var rest := ChainIsRefPath(boxes, marks, cycle, next, chain[1..], b);
      steps := [e] + rest;
      assert steps[1..] == rest;
    }
  }

  lemma RefReachIsHoldsOn(boxes: seq<Box>, marks: seq<seq<MarkOp>>, cycle: seq<MarkOp>, a: Box, b: Box)
    requires 0 < |boxes| == |marks|
    ensures RefReach(AllRefs(boxes, marks, cycle), a, b) <==> HoldsOn(boxes, marks, cycle, a, b)
  {
    hide AllRefs, RefPath, HoldsAlong;
    if RefReach(AllRefs(boxes, marks, cycle), a, b) {
      var steps :| RefPath(AllRefs(boxes, marks, cycle), a, steps, b);
      var chain := RefPathIsChain(boxes, marks, cycle, a, steps, b);
    }
    if HoldsOn(boxes, marks, cycle, a, b) {
      var chain :| HoldsAlong(boxes, marks, cycle, a, chain, b);
      var steps := ChainIsRefPath(boxes, marks, cycle, a, chain, b);
    }
  }

  /** One of the first `k` candidates holds on to `b`. */
  ghost predicate HeldByFirstOf(boxes: seq<Box>, marks: seq<seq<MarkOp>>, cycle: seq<MarkOp>, k: nat, b: Box)
    requires 0 < |boxes| == |marks| && k <= |boxes|
  {
    exists c: nat :: c < k && HoldsOn(boxes, marks, cycle, boxes[c], b)
  }

  /** The two candidates hold on to each other. */
  ghost predicate HoldEachOther(boxes: seq<Box>, marks: seq<seq<MarkOp>>, cycle: seq<MarkOp>, a: nat, b: nat)
    requires 0 < |boxes| == |marks| && a < |boxes| && b < |boxes|
  {
    HoldsOn(boxes, marks, cycle, boxes[a], boxes[b]) && HoldsOn(boxes, marks, cycle, boxes[b], boxes[a])
  }

  /**
   Why candidate `a` is listed before candidate `b`: it holds on to `b` and `b` not on to it, or
   they hold on to each other and `a` is newer, or `a` is held only by later candidates than `b` is.
   */
  ghost predicate MustPrecede(boxes: seq<Box>, marks: seq<seq<MarkOp>>, cycle: seq<MarkOp>, a: nat, b: nat)
    requires 0 < |boxes| == |marks| && a < |boxes| && b < |boxes|
  {
    || (HoldsOn(boxes, marks, cycle, boxes[a], boxes[b]) && !HoldsOn(boxes, marks, cycle, boxes[b], boxes[a]))
    || (HoldEachOther(boxes, marks, cycle, a, b) && a > b)
    || exists k: nat :: (k <= |boxes| && HeldByFirstOf(boxes, marks, cycle, k, boxes[b]) &&
                         !HeldByFirstOf(boxes, marks, cycle, k, boxes[a]))
  }

  /** The output order, in terms of what the marking reports. */
  ghost predicate OrderedByHolding(boxes: seq<Box>, marks: seq<seq<MarkOp>>, cycle: seq<MarkOp>, order: seq<nat>)
    requires 0 < |boxes| == |marks| && forall q :: 0 <= q < |order| ==> order[q] < |boxes|
  {
    && (forall p, q :: 0 <= p < |order| && 0 <= q < |order| && MustPrecede(boxes, marks, cycle, order[p], order[q]) ==>
          p < q)
    && forall p, q, r :: 0 <= p < q < r < |order| && HoldEachOther(boxes, marks, cycle, order[p], order[r]) ==>
         HoldEachOther(boxes, marks, cycle, order[p], order[q])
  }

  lemma HeldByFirstIsOf(boxes: seq<Box>, marks: seq<seq<MarkOp>>, cycle: seq<MarkOp>, k: nat, b: Box)
    requires 0 < |boxes| == |marks| && k <= |boxes|
    ensures HeldByFirst(AllRefs(boxes, marks, cycle), boxes, k, b) <==> HeldByFirstOf(boxes, marks, cycle, k, b)
  {
    hide RefReach, HoldsOn, AllRefs;
    forall c: nat | c < k
      ensures RefReach(AllRefs(boxes, marks, cycle), boxes[c], b) <==> HoldsOn(boxes, marks, cycle, boxes[c], b)
    {
      RefReachIsHoldsOn(boxes, marks, cycle, boxes[c], b);
    }
  }

  lemma InLoopIsEachOther(boxes: seq<Box>, marks: seq<seq<MarkOp>>, cycle: seq<MarkOp>, a: nat, b: nat)
    requires 0 < |boxes| == |marks| && a < |boxes| && b < |boxes|
    ensures InLoop(AllRefs(boxes, marks, cycle), boxes[a], boxes[b]) <==> HoldEachOther(boxes, marks, cycle, a, b)
  {
    hide RefReach, HoldsOn, AllRefs;
    RefReachIsHoldsOn(boxes, marks, cycle, boxes[a], boxes[b]);
    RefReachIsHoldsOn(boxes, marks, cycle, boxes[b], boxes[a]);
  }

  lemma PrecedesByHolding(boxes: seq<Box>, marks: seq<seq<MarkOp>>, cycle: seq<MarkOp>, order: seq<nat>, p: nat, q: nat)
    requires 0 < |boxes| == |marks| && Permutes(order, |boxes|)
    requires OwnersFirst(AllRefs(boxes, marks, cycle), boxes, order)
    requires LaterHeldFirst(AllRefs(boxes, marks, cycle), boxes, order)
    requires LoopsTogether(AllRefs(boxes, marks, cycle), boxes, order)
    requires p < |order| && q < |order| && MustPrecede(boxes, marks, cycle, order[p], order[q])
    ensures p < q
  {
    hide RefReach, HoldsOn, AllRefs, HeldByFirst, HeldByFirstOf;
    var refs, a, b := AllRefs(boxes, marks, cycle), order[p], order[q];
    RefReachIsHoldsOn(boxes, marks, cycle, boxes[a], boxes[b]);
    RefReachIsHoldsOn(boxes, marks, cycle, boxes[b], boxes[a]);
    if RefReach(refs, boxes[a], boxes[b]) && !RefReach(refs, boxes[b], boxes[a]) {
      assert Owns(refs, boxes[a], boxes[b]);
    } else if HoldEachOther(boxes, marks, cycle, a, b) && a > b {
      assert InLoop(refs, boxes[b], boxes[a]);
    } else {
      var k: nat :| k <= |boxes| && HeldByFirstOf(boxes, marks, cycle, k, boxes[b]) &&
                    !HeldByFirstOf(boxes, marks, cycle, k, boxes[a]);
      HeldByFirstIsOf(boxes, marks, cycle, k, boxes[a]);
      HeldByFirstIsOf(boxes, marks, cycle, k, boxes[b]);
    }
  }

  lemma OrderIsByHolding(boxes: seq<Box>, marks: seq<seq<MarkOp>>, cycle: seq<MarkOp>, order: seq<nat>)
    requires 0 < |boxes| == |marks| && Permutes(order, |boxes|)
    requires OwnersFirst(AllRefs(boxes, marks, cycle), boxes, order)
    requires LaterHeldFirst(AllRefs(boxes, marks, cycle), boxes, order)
    requires LoopsTogether(AllRefs(boxes, marks, cycle), boxes, order)
    ensures OrderedByHolding(boxes, marks, cycle, order)
  {
    hide AllRefs, OwnersFirst, LaterHeldFirst, MustPrecede, HoldEachOther, InLoop;
    forall p: nat, q: nat | p < |order| && q < |order| && MustPrecede(boxes, marks, cycle, order[p], order[q])
      ensures p < q
    {
      PrecedesByHolding(boxes, marks, cycle, order, p, q);
    }
    forall p, q, r | 0 <= p < q < r < |order| && HoldEachOther(boxes, marks, cycle, order[p], order[r])
      ensures HoldEachOther(boxes, marks, cycle, order[p], order[q])
    {
      InLoopIsEachOther(boxes, marks, cycle, order[p], order[r]);
      InLoopIsEachOther(boxes, marks, cycle, order[p], order[q]);
    }
  }

  /** Distinct objects of the heap, none of them in a graph yet. */
  ghost predicate GoodCandidates(destructArray: seq<IfacePtr>, heap: set<Box>)
    reads heap
  {
    && destructArray != []
    && (forall k :: 0 <= k < |destructArray| ==>
          destructArray[k].IfacePtr? && destructArray[k].box in heap &&
          destructArray[k] == MainIface(destructArray[k].box))
    && (forall j, k :: 0 <= j < k < |destructArray| ==> destructArray[j] != destructArray[k])
    && (forall b :: b in heap ==> !b.InGraph())
  }

  /** What the search and the emission make of a graph that has been built. */
  method SearchAndEmit(graph: DestructGraph, out: IfaceArray, ghost heap: set<Box>)
    returns (ghost t: State, ghost order: seq<nat>)
    requires graph.Built(heap)
    modifies graph`tarjanStack, graph`tarjanDfsStack, graph`sccNodeArray, graph`sccBaseArray, graph.nodeArray, out
    ensures Searched(graph.Table(), |graph.nodeArray|, t, graph.destructCount)
    ensures EmitOrder(t.scc, graph.destructCount, order) && graph.destructCount <= |graph.nodeArray|
    ensures out.items == old(out.items) + IfacesOf(graph.nodeArray, order)
  {
    assert graph.Searchable();
    hide Searched, EmitOrder;
    var t', steps := graph.Tarjan();
    t := t';
    order := graph.Emit(out, t);
  }

  /** Build, search and emit, before the flags are cleared. */
  method SortCandidates(graph: DestructGraph, destructArray: seq<IfacePtr>, marks: seq<seq<MarkOp>>,
                        cycle: seq<MarkOp>, out: IfaceArray, ghost heap: set<Box>)
    returns (ghost order: seq<nat>)
    requires GoodCandidates(destructArray, heap) && |marks| == |destructArray|
    requires (forall k :: 0 <= k < |marks| ==> Within(marks[k], heap)) && Within(cycle, heap)
    modifies graph, out, heap
    ensures Permutes(order, |destructArray|)
    ensures out.items == old(out.items) + Reordered(destructArray, order)
    ensures OwnersFirst(RefsFor(destructArray, marks, cycle), BoxesOfAll(destructArray), order)
    ensures LaterHeldFirst(RefsFor(destructArray, marks, cycle), BoxesOfAll(destructArray), order)
    ensures LoopsTogether(RefsFor(destructArray, marks, cycle), BoxesOfAll(destructArray), order)
    ensures forall b :: b in heap ==>
              b.flags - GRAPH_FLAGS == old(b.flags) - GRAPH_FLAGS + MarksOn(MarkingFor(destructArray, marks, cycle), b)
    ensures forall k :: 0 <= k < |graph.nodeArray| ==> graph.nodeArray[k].box in heap
    ensures FlagsExact(graph.nodeArray, heap)
  {
    hide Searched, EmitOrder, Mirrors, ValidTable, RefsOf, MarkingOf, OwnersFirst, LaterHeldFirst, LoopsTogether;
    hide Permutes, Within, FlagsExact, MarksOn;
    ghost var boxes := BoxesOfAll(destructArray);
    forall j, k | 0 <= j < k < |destructArray| ensures destructArray[j].box != destructArray[k].box {
      assert destructArray[j] != destructArray[k];
    }
    graph.Build(destructArray, marks, cycle, heap);
    ghost var nodes, g, edges := graph.nodeArray, graph.Table(), graph.unsortedEdges;
    ghost var t;
    t, order := SearchAndEmit(graph, out, heap);
    OrderMeans(nodes, g, t, edges, RefsFor(destructArray, marks, cycle), boxes, order);
    EmitOrderPermutes(t.scc, |boxes|, order);
    assert IfacesOf(nodes, order) == Reordered(destructArray, order);
  }

  lemma MarksForAreMarked(destructArray: seq<IfacePtr>, marks: seq<seq<MarkOp>>, cycle: seq<MarkOp>)
    requires 0 < |destructArray| == |marks|
    requires forall k :: 0 <= k < |destructArray| ==> destructArray[k].IfacePtr?
    ensures forall b, f :: f in MarksOn(MarkingFor(destructArray, marks, cycle), b) <==> MarkedBy(marks, cycle, b, f)
  {
    hide MarksOn, MarkedBy, MarkingOf;
    forall b, f ensures f in MarksOn(MarkingFor(destructArray, marks, cycle), b) <==> MarkedBy(marks, cycle, b, f) {
      MarksAreMarked(BoxesOfAll(destructArray), marks, cycle, b, f);
    }
  }

  /**
   Appends the candidates to `out` in the order in which they are to be destructed. Of the
   flags of a box only the marks change, by those that the marking sets.
   */
  method SortDestructibles(graph: DestructGraph, destructArray: seq<IfacePtr>, marks: seq<seq<MarkOp>>,
                           cycle: seq<MarkOp>, out: IfaceArray, ghost heap: set<Box>)
    returns (ghost order: seq<nat>)
    requires GoodCandidates(destructArray, heap) && |marks| == |destructArray|
    requires (forall k :: 0 <= k < |marks| ==> Within(marks[k], heap)) && Within(cycle, heap)
    modifies graph, out, heap
    ensures Permutes(order, |destructArray|)
    ensures out.items == old(out.items) + Reordered(destructArray, order)
    ensures multiset(out.items) == multiset(old(out.items)) + multiset(destructArray)
    ensures OwnersFirst(RefsFor(destructArray, marks, cycle), BoxesOfAll(destructArray), order)
    ensures LaterHeldFirst(RefsFor(destructArray, marks, cycle), BoxesOfAll(destructArray), order)
    ensures LoopsTogether(RefsFor(destructArray, marks, cycle), BoxesOfAll(destructArray), order)
    ensures forall b :: b in heap ==> b.flags == old(b.flags) + MarksOn(MarkingFor(destructArray, marks, cycle), b)
    ensures OrderedByHolding(BoxesOfAll(destructArray), marks, cycle, order)
    ensures forall b, f :: b in heap ==> (f in b.flags <==> f in old(b.flags) || MarkedBy(marks, cycle, b, f))
    ensures graph.nodeArray == [] && graph.nodeMap == map[] && graph.currentNode == null
  {
    hide AllRefs, MarkedBy, MarkingFor, MarksOn, OwnersFirst, LaterHeldFirst, LoopsTogether, OrderedByHolding;
    order := SortCandidates(graph, destructArray, marks, cycle, out, heap);
    MarksForAreMarked(destructArray, marks, cycle);
    OrderIsByHolding(BoxesOfAll(destructArray), marks, cycle, order);
    ReorderedConserves(destructArray, order);
    graph.Cleanup(heap);
  }
}
