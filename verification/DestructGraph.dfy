/**
 The destruct graph itself: nodes and box flags, edges, and the four passes over them.
 */
module DestructGraphs {
  import opened BoxHeaders
  import opened Reachability
  import opened TarjanSteps
  import opened TarjanSearch
  import opened TarjanRuns
  import opened CountSorting
  import opened SeqSlices
  import opened DestructOrder

  // ---- boxes and nodes -------------------------------------------------------

  const GRAPH_FLAGS := {BoxFlag.Index, BoxFlag.Map}

  class Box {
    var flags: set<BoxFlag>
    var index: BoxIndex

    ghost predicate InGraph()
      reads this
    {
      BoxFlag.Index in flags || BoxFlag.Map in flags
    }
  }

  /** The interface header at `offset` bytes into the object in `box`. */
  datatype IfacePtr = Null | IfacePtr(box: Box, offset: nat)

  /** A box header takes 16 bytes; the main interface follows it. */
  function MainIface(box: Box): IfacePtr {
    IfacePtr(box, 16)
  }

  class IfaceArray {
    var items: seq<IfacePtr>
  }

  class DestructGraphNode {
    const box: Box
    const index: nat
    var tarjanIdx: int
    var lowlink: int
    var sccIdx: int

    constructor (box: Box, index: nat)
      ensures this.box == box && this.index == index
      ensures tarjanIdx == lowlink == sccIdx == -1
    {
      this.box, this.index := box, index;
      tarjanIdx, lowlink, sccIdx := -1, -1, -1;
    }
  }

  // ---- what the mark pass asks of the graph ----------------------------------

  /** What a mark pass does to boxes and asks of the graph, in any order and any number. */
  datatype MarkOp =
    | SetMarks(box: Box, marks: MarkFlags)
    | Touch(box: Box)
    | SetCurrent(box: Box)
    | AddEdge(box: Box)
    | AddEdgeFrom(parent: Box, box: Box)

  /** A reference from one box to another. */
  datatype Ref = Ref(src: Box, dst: Box)

  ghost function CurrentAfter(ops: seq<MarkOp>, current: Box): Box
    decreases |ops|
  {
    if ops == [] then current
    else
      match ops[|ops| - 1]
      case SetCurrent(b) => b
      case _ => CurrentAfter(ops[..|ops| - 1], current)
  }

  ghost function RefOf(op: MarkOp, current: Box): seq<Ref> {
    match op
    case AddEdge(b) => if b == current then [] else [Ref(current, b)]
    case AddEdgeFrom(p, b) => if b == p then [] else [Ref(p, b)]
    case _ => []
  }

  /** The references a mark pass reports, self-references left out. */
  ghost function RefsOf(ops: seq<MarkOp>, current: Box): seq<Ref>
    decreases |ops|
  {
    if ops == [] then []
    else
      var init := ops[..|ops| - 1];
      RefsOf(init, current) + RefOf(ops[|ops| - 1], CurrentAfter(init, current))
  }

  ghost function MarksOf(op: MarkOp, box: Box): MarkFlags {
    match op
    case SetMarks(b, marks) => if b == box then marks else {}
    case _ => {}
  }

  /** The marks a mark pass sets on a box. */
  ghost function MarksOn(ops: seq<MarkOp>, box: Box): MarkFlags
    decreases |ops|
  {
    if ops == [] then {}
    else MarksOn(ops[..|ops| - 1], box) + MarksOf(ops[|ops| - 1], box)
  }

  // ---- the same by positions in the marking -----------------------------------

  /** At step `k` the current box is `box`: the last one made current before, or else the one from the start. */
  ghost predicate CurrentAt(ops: seq<MarkOp>, k: nat, start: Box, box: Box)
    requires k <= |ops|
  {
    || (box == start && forall i :: 0 <= i < k ==> !ops[i].SetCurrent?)
    || exists j :: 0 <= j < k && ops[j] == SetCurrent(box) && forall i :: j < i < k ==> !ops[i].SetCurrent?
  }

  /** Step `k` reports a reference from `x` to `y`. */
  ghost predicate ReportsAt(ops: seq<MarkOp>, k: nat, start: Box, x: Box, y: Box)
    requires k < |ops|
  {
    ops[k] == AddEdgeFrom(x, y) || (ops[k] == AddEdge(y) && CurrentAt(ops, k, start, x))
  }

  ghost predicate Reports(ops: seq<MarkOp>, start: Box, x: Box, y: Box) {
    exists k :: 0 <= k < |ops| && ReportsAt(ops, k, start, x, y)
  }

  /** Some step sets the mark `f` on `box`. */
  ghost predicate SetsMark(ops: seq<MarkOp>, box: Box, f: BoxFlag) {
    exists k :: 0 <= k < |ops| && ops[k].SetMarks? && ops[k].box == box && f in ops[k].marks
  }

  lemma {:induction false} CurrentIsLastSet(ops: seq<MarkOp>, k: nat, start: Box, box: Box)
    requires k <= |ops|
    ensures CurrentAt(ops, k, start, box) <==> box == CurrentAfter(ops[..k], start)
    decreases k
  {
    if k > 0 {
      var init := ops[..k][..k - 1];
      assert init == ops[..k - 1];
      CurrentIsLastSet(ops, k - 1, start, box);
    }
  }

  lemma LastReports(ops: seq<MarkOp>, n: nat, start: Box, x: Box, y: Box)
    requires n < |ops|
    ensures Ref(x, y) in RefOf(ops[n], CurrentAfter(ops[..n], start)) <==> x != y && ReportsAt(ops, n, start, x, y)
  {
    hide CurrentAt, CurrentAfter;
    CurrentIsLastSet(ops, n, start, x);
  }

  lemma ReportsInInit(ops: seq<MarkOp>, n: nat, k: nat, start: Box, x: Box, y: Box)
    requires k < n < |ops|
    ensures ReportsAt(ops[..n], k, start, x, y) <==> ReportsAt(ops, k, start, x, y)
  {
    hide CurrentAt, CurrentAfter;
    CurrentIsLastSet(ops[..n], k, start, x);
    CurrentIsLastSet(ops, k, start, x);
    assert ops[..n][..k] == ops[..k];
  }

  lemma ReportsNext(ops: seq<MarkOp>, n: nat, start: Box, x: Box, y: Box)
    requires |ops| == n + 1
    ensures Reports(ops, start, x, y) <==> Reports(ops[..n], start, x, y) || ReportsAt(ops, n, start, x, y)
  {
    hide ReportsAt;
    forall k: nat | k < n ensures ReportsAt(ops[..n], k, start, x, y) <==> ReportsAt(ops, k, start, x, y) {
      ReportsInInit(ops, n, k, start, x, y);
    }
  }

  lemma RefsNext(ops: seq<MarkOp>, n: nat, start: Box, r: Ref)
    requires |ops| == n + 1
    ensures r in RefsOf(ops, start) <==>
            r in RefsOf(ops[..n], start) || r in RefOf(ops[n], CurrentAfter(ops[..n], start))
  {
    hide RefOf, CurrentAfter;
  }

  /** The references are exactly those that some step reports, self-references left out. */
  lemma {:induction false} RefsAreReported(ops: seq<MarkOp>, start: Box, x: Box, y: Box)
    ensures Ref(x, y) in RefsOf(ops, start) <==> x != y && Reports(ops, start, x, y)
    decreases |ops|
  {
    if ops != [] {
      hide RefsOf, RefOf, Reports, ReportsAt, CurrentAfter;
      var n := |ops| - 1;
      RefsAreReported(ops[..n], start, x, y);
      RefsNext(ops, n, start, Ref(x, y));
      LastReports(ops, n, start, x, y);
      ReportsNext(ops, n, start, x, y);
    }
  }

  /** The marks on a box are exactly those that some step sets on it. */
  lemma {:induction false} MarksAreSet(ops: seq<MarkOp>, box: Box, f: BoxFlag)
    ensures f in MarksOn(ops, box) <==> SetsMark(ops, box, f)
    decreases |ops|
  {
    if ops != [] {
      var init := ops[..|ops| - 1];
      MarksAreSet(init, box, f);
      assert forall k :: 0 <= k < |init| ==> init[k] == ops[k];
    }
  }

  ghost function BoxesOf(op: MarkOp): set<Box> {
    match op
    case AddEdgeFrom(p, b) => {p, b}
    case _ => {op.box}
  }

  ghost predicate Within(ops: seq<MarkOp>, heap: set<Box>) {
    forall k :: 0 <= k < |ops| ==> BoxesOf(ops[k]) <= heap
  }

  lemma {:induction false} MarksAppend(a: seq<MarkOp>, b: seq<MarkOp>, current: Box)
    ensures CurrentAfter(a + b, current) == CurrentAfter(b, CurrentAfter(a, current))
    ensures RefsOf(a + b, current) == RefsOf(a, current) + RefsOf(b, CurrentAfter(a, current))
    decreases |b|
  {
    if b == [] {
      assert a + b == a;
    } else {
      var init := b[..|b| - 1];
      assert (a + b)[..|a + b| - 1] == a + init;
      MarksAppend(a, init, current);
    }
  }

  lemma {:induction false} MarksOnAppend(a: seq<MarkOp>, b: seq<MarkOp>, box: Box)
    ensures MarksOn(a + b, box) == MarksOn(a, box) + MarksOn(b, box)
    decreases |b|
  {
    if b == [] {
      assert a + b == a;
    } else {
      var init := b[..|b| - 1];
      assert (a + b)[..|a + b| - 1] == a + init;
      MarksOnAppend(a, init, box);
    }
  }

  lemma AllMarksAppend(a: seq<MarkOp>, b: seq<MarkOp>)
    ensures forall box :: MarksOn(a + b, box) == MarksOn(a, box) + MarksOn(b, box)
  {
    forall box ensures MarksOn(a + b, box) == MarksOn(a, box) + MarksOn(b, box) {
      MarksOnAppend(a, b, box);
    }
  }

  lemma NoMarks(refs: seq<Ref>, current: Box)
    ensures CurrentAfter([], current) == current && refs + RefsOf([], current) == refs
    ensures forall b :: MarksOn([], b) == {}
  {
  }

  lemma MarksOnNext(ops: seq<MarkOp>, j: nat, box: Box)
    requires j < |ops|
    ensures MarksOn(ops[..j + 1], box) == MarksOn(ops[..j], box) + MarksOf(ops[j], box)
  {
    assert ops[..j + 1][..j] == ops[..j];
  }

  lemma MarksNext(ops: seq<MarkOp>, j: nat, current: Box)
    requires j < |ops|
    ensures CurrentAfter(ops[..j + 1], current) == CurrentAfter([ops[j]], CurrentAfter(ops[..j], current))
    ensures RefsOf(ops[..j + 1], current) == RefsOf(ops[..j], current) + RefOf(ops[j], CurrentAfter(ops[..j], current))
  {
    assert ops[..j + 1][..j] == ops[..j];
  }

  /**
   The marking done for a list of candidates: each in turn becomes the current node and
   its class is marked, then the mark cycle runs.
   */
  ghost function MarkingOf(boxes: seq<Box>, marks: seq<seq<MarkOp>>): seq<MarkOp>
    requires |boxes| <= |marks|
    decreases |boxes|
  {
    if boxes == [] then []
    else
      var last := |boxes| - 1;
      MarkingOf(boxes[..last], marks) + [SetCurrent(boxes[last])] + marks[last]
  }

  lemma BaseMonotone(es: seq<Edge>, base: seq<nat>, n: nat, i: nat, j: nat)
    requires |base| == n + 1 && base[n] == Start(es, n) && i <= j <= n
    requires forall k {:trigger base[k]} :: 0 <= k < n ==> base[k] == Start(es, k)
    ensures base[i] <= base[j]
  {
    hide Start;
    assert base[i] == Start(es, i) && base[j] == Start(es, j);
    StartMonotone(es, i, j);
  }

  ghost function BoxesOfAll(ifaces: seq<IfacePtr>): (boxes: seq<Box>)
    requires forall k :: 0 <= k < |ifaces| ==> ifaces[k].IfacePtr?
    ensures |boxes| == |ifaces| && forall k :: 0 <= k < |boxes| ==> boxes[k] == ifaces[k].box
  {
    seq(|ifaces|, k requires 0 <= k < |ifaces| => ifaces[k].box)
  }

  /** One more candidate becomes current and is marked. */
  lemma MarkingNext(boxes: seq<Box>, marks: seq<seq<MarkOp>>, i: nat)
    requires i < |boxes| <= |marks|
    ensures var before, after := MarkingOf(boxes[..i], marks), MarkingOf(boxes[..i + 1], marks);
            && CurrentAfter(after, boxes[0]) == CurrentAfter(marks[i], boxes[i])
            && RefsOf(after, boxes[0]) == RefsOf(before, boxes[0]) + RefsOf(marks[i], boxes[i])
  {
    var before := MarkingOf(boxes[..i], marks);
    assert boxes[..i + 1][..i] == boxes[..i];
    MarksSetCurrent(before, boxes[i], boxes[0]);
    MarksAppend(before + [SetCurrent(boxes[i])], marks[i], boxes[0]);
  }

  lemma MarkingMarks(boxes: seq<Box>, marks: seq<seq<MarkOp>>, i: nat, box: Box)
    requires i < |boxes| <= |marks|
    ensures MarksOn(MarkingOf(boxes[..i + 1], marks), box) ==
            MarksOn(MarkingOf(boxes[..i], marks), box) + MarksOn(marks[i], box)
  {
    var before := MarkingOf(boxes[..i], marks);
    assert boxes[..i + 1][..i] == boxes[..i];
    MarksOnAppend(before, [SetCurrent(boxes[i])], box);
    MarksOnAppend(before + [SetCurrent(boxes[i])], marks[i], box);
  }

  lemma NoMarking(boxes: seq<Box>, marks: seq<seq<MarkOp>>)
    requires 0 < |boxes| <= |marks|
    ensures RefsOf(MarkingOf(boxes[..0], marks), boxes[0]) == []
    ensures forall b :: MarksOn(MarkingOf(boxes[..0], marks), b) == {}
  {
  }

  lemma MarksSetCurrent(ops: seq<MarkOp>, box: Box, current: Box)
    ensures CurrentAfter(ops + [SetCurrent(box)], current) == box
    ensures RefsOf(ops + [SetCurrent(box)], current) == RefsOf(ops, current)
  {
    assert (ops + [SetCurrent(box)])[..|ops|] == ops;
  }

  /** What the counting sort and the sentinel leave is an edge table. */
  lemma SortedIsTable(es: seq<Edge>, sorted: seq<Edge>, base: seq<nat>, n: nat)
    requires n > 0 && |base| == n + 1 && KeysBelow(es, n)
    requires forall i :: 0 <= i < |es| ==> es[i].dst < n
    requires forall k {:trigger base[k]} :: 0 <= k < n ==> base[k] == Start(es, k)
    requires base[n] == |es| == |sorted|
    requires multiset(sorted) == multiset(es)
    requires forall e :: 0 <= e < |es| ==> Start(es, sorted[e].src) <= e < Start(es, sorted[e].src + 1)
    ensures ValidTable(EdgeTable(sorted, base), n)
  {
    hide Start;
    StartTotal(es, n);
    StartOfFirst(es);
    forall i, j | 0 <= i <= j <= n
      ensures base[i] <= base[j]
    {
      BaseMonotone(es, base, n, i, j);
    }
    forall e | 0 <= e < |sorted|
      ensures sorted[e].src < n && sorted[e].dst < n
      ensures base[sorted[e].src] <= e < base[sorted[e].src + 1]
    {
      assert sorted[e] in multiset(es);
    }
  }

  /** Slice `k` of the table holds exactly the edges that leave node `k`. */
  lemma SliceIsOutEdges(g: EdgeTable, n: nat, es: seq<Edge>, k: nat, x: Edge)
    requires ValidTable(g, n) && multiset(g.edges) == multiset(es) && k < n
    ensures g.base[k] <= g.base[k + 1] <= |g.edges|
    ensures multiset(g.edges[g.base[k]..g.base[k + 1]])[x] == if x.src == k then multiset(es)[x] else 0
  {
    var lo, hi := g.base[k], g.base[k + 1];
    assert lo <= hi <= g.base[n];
    CountOfParts(g.edges, lo, hi, x);
    forall e: nat | lo <= e < hi ensures g.edges[e].src == k {
      SliceSource(g, n, k, e);
    }
    assert forall e :: 0 <= e < |g.edges| && g.edges[e].src == k ==> lo <= e < hi;
    if x.src == k {
      assert x !in g.edges[..lo] && x !in g.edges[hi..];
    } else {
      assert x !in g.edges[lo..hi];
    }
  }

  // ---- the index of boxes ------------------------------------------------------

  ghost function BoxesIn(nodes: seq<DestructGraphNode>): (bs: seq<Box>)
    ensures |bs| == |nodes| && forall k :: 0 <= k < |bs| ==> bs[k] == nodes[k].box
  {
    seq(|nodes|, k requires 0 <= k < |nodes| => nodes[k].box)
  }

  type NodeMap = map<Box, DestructGraphNode>

  /** The flag, and the index or the map entry, by which the `k`-th node is found from its box. */
  ghost predicate Registered(nodes: seq<DestructGraphNode>, m: NodeMap, k: nat)
    requires k < |nodes|
    reads nodes[k].box
  {
    var b := nodes[k].box;
    if k < BOX_INDEX_LIMIT then
      BoxFlag.Index in b.flags && BoxFlag.Map !in b.flags && b.index == k
    else
      BoxFlag.Map in b.flags && BoxFlag.Index !in b.flags && b in m && m[b] == nodes[k]
  }

  /** Node `k` stands at position `k`, boxes and nodes are one to one, and every box leads to its node. */
  ghost predicate Indexed(nodes: seq<DestructGraphNode>, m: NodeMap, heap: set<Box>)
    reads heap
  {
    && (forall k :: 0 <= k < |nodes| ==> nodes[k].box in heap)
    && (forall k :: 0 <= k < |nodes| ==> nodes[k].index == k)
    && (forall j, k :: 0 <= j < k < |nodes| ==> nodes[j].box != nodes[k].box)
    && (forall k: nat :: k < |nodes| ==> Registered(nodes, m, k))
  }

  /** Exactly the boxes of nodes carry one of the graph's flags. */
  ghost predicate FlagsExact(nodes: seq<DestructGraphNode>, heap: set<Box>)
    reads heap
  {
    forall b :: b in heap ==> (b.InGraph() <==> b in BoxesIn(nodes))
  }

  ghost predicate Unsearched(nodes: seq<DestructGraphNode>)
    reads nodes
  {
    forall k :: 0 <= k < |nodes| ==> nodes[k].tarjanIdx == nodes[k].lowlink == nodes[k].sccIdx == -1
  }

  /** The edges are the references `refs`, in that order, between the nodes of their boxes. */
  ghost predicate Mirrors(nodes: seq<DestructGraphNode>, edges: seq<Edge>, refs: seq<Ref>) {
    && |edges| == |refs|
    && forall e :: 0 <= e < |refs| ==> Mirrors1(nodes, edges[e], refs[e])
  }

  ghost predicate Mirrors1(nodes: seq<DestructGraphNode>, edge: Edge, ref: Ref) {
    && edge.src < |nodes| && edge.dst < |nodes| && edge.src != edge.dst
    && nodes[edge.src].box == ref.src && nodes[edge.dst].box == ref.dst
  }

  lemma NoReferences(nodes: seq<DestructGraphNode>)
    ensures Mirrors(nodes, [], [])
  {
  }

  /** The main interfaces of the objects that the listed nodes stand for. */
  ghost function IfacesOf(nodes: seq<DestructGraphNode>, order: seq<nat>): (r: seq<IfacePtr>)
    requires forall k :: 0 <= k < |order| ==> order[k] < |nodes|
    ensures |r| == |order| && forall k :: 0 <= k < |r| ==> r[k] == MainIface(nodes[order[k]].box)
  {
    seq(|order|, k requires 0 <= k < |order| => MainIface(nodes[order[k]].box))
  }

  ghost predicate Descending(ys: seq<nat>) {
    forall p, q :: 0 <= p < q < |ys| ==> ys[p] >= ys[q]
  }

  function Insert(ys: seq<nat>, x: nat): (zs: seq<nat>)
    ensures multiset(zs) == multiset(ys) + multiset{x}
    decreases |ys|
  {
    if ys == [] then [x]
    else
      var init, last := ys[..|ys| - 1], ys[|ys| - 1];
      assert ys == init + [last];
      if last >= x then ys + [x] else Insert(init, x) + [last]
  }

  lemma InsertMember(ys: seq<nat>, x: nat, v: nat)
    requires v in Insert(ys, x)
    ensures v in ys || v == x
  {
    assert v in multiset(Insert(ys, x));
  }

  lemma AppendDescending(ys: seq<nat>, x: nat)
    requires Descending(ys) && forall v :: v in ys ==> v >= x
    ensures Descending(ys + [x])
  {
    var zs := ys + [x];
    forall p, q | 0 <= p < q < |zs| ensures zs[p] >= zs[q] {
      assert zs[p] == ys[p] && ys[p] in ys;
      assert q < |ys| ==> zs[q] == ys[q];
    }
  }

  lemma {:induction false} InsertDescending(ys: seq<nat>, x: nat)
    requires Descending(ys)
    ensures Descending(Insert(ys, x))
    decreases |ys|
  {
    if ys != [] {
      var init, last := ys[..|ys| - 1], ys[|ys| - 1];
      if last >= x {
        AppendDescending(ys, x);
      } else {
        InsertDescending(init, x);
        forall v | v in Insert(init, x) ensures v >= last {
          InsertMember(init, x, v);
        }
        AppendDescending(Insert(init, x), last);
      }
    }
  }

  method SortDescending(xs: seq<nat>) returns (ys: seq<nat>)
    ensures multiset(ys) == multiset(xs)
    ensures Descending(ys)
  {
    ys := [];
    for j := 0 to |xs|
      invariant multiset(ys) == multiset(xs[..j])
      invariant Descending(ys)
    {
      assert xs[..j + 1] == xs[..j] + [xs[j]];
      InsertDescending(ys, xs[j]);
      ys := Insert(ys, xs[j]);
    }
    assert xs[..|xs|] == xs;
  }

  ghost predicate InRange(list: seq<nat>, n: nat) {
    forall k :: 0 <= k < |list| ==> list[k] < n
  }

  /** The interfaces of the listed nodes have been written behind `was`. */
  ghost predicate Written(items: seq<IfacePtr>, was: seq<IfacePtr>, nodes: seq<DestructGraphNode>, order: seq<nat>) {
    && InRange(order, |nodes|)
    && |was| + |order| <= |items|
    && items[..|was| + |order|] == was + IfacesOf(nodes, order)
  }

  /** The array still has the first `end` entries of `nodes`. */
  ghost predicate Untouched(sccNodeArray: seq<nat>, nodes: seq<nat>, end: nat) {
    end <= |sccNodeArray| == |nodes| && sccNodeArray[..end] == nodes[..end]
  }

  lemma NothingWritten(items: seq<IfacePtr>, was: seq<IfacePtr>, nodes: seq<DestructGraphNode>)
    requires was <= items
    ensures Written(items, was, nodes, [])
  {
  }

  lemma WholeUntouched(sccNodeArray: seq<nat>)
    ensures Untouched(sccNodeArray, sccNodeArray, |sccNodeArray|)
  {
  }

  lemma EmitMore(nodes: seq<DestructGraphNode>, was: seq<IfacePtr>, before: seq<IfacePtr>, after: seq<IfacePtr>,
                 order: seq<nat>, seg: seq<nat>)
    requires Written(before, was, nodes, order) && InRange(seg, |nodes|)
    requires |was| + |order| + |seg| <= |before| == |after|
    requires after[..|was| + |order|] == before[..|was| + |order|]
    requires after[|was| + |order|..|was| + |order| + |seg|] == IfacesOf(nodes, seg)
    ensures Written(after, was, nodes, order + seg)
  {
    var d := |was| + |order|;
    assert IfacesOf(nodes, order + seg) == IfacesOf(nodes, order) + IfacesOf(nodes, seg);
    assert after[..d + |seg|] == after[..d] + after[d..d + |seg|];
  }

  lemma AllWritten(items: seq<IfacePtr>, was: seq<IfacePtr>, nodes: seq<DestructGraphNode>, order: seq<nat>)
    requires Written(items, was, nodes, order) && |items| == |was| + |order|
    ensures items == was + IfacesOf(nodes, order)
  {
    assert items[..|items|] == items;
  }

  class DestructGraph {
    var nodeArray: seq<DestructGraphNode>
    var nodeMap: map<Box, DestructGraphNode>
    var unsortedEdges: seq<Edge>
    var sortedEdges: seq<Edge>
    var edgeBase: seq<nat>
    var destructCount: nat
    var tarjanStack: seq<nat>
    var tarjanDfsStack: seq<Frame>
    var sccNodeArray: seq<nat>
    var sccBaseArray: seq<nat>
    var currentNode: DestructGraphNode?

    constructor ()
      ensures nodeArray == [] && nodeMap == map[] && currentNode == null && destructCount == 0
    {
      nodeArray, nodeMap := [], map[];
      unsortedEdges, sortedEdges, edgeBase := [], [], [];
      tarjanStack, tarjanDfsStack, sccNodeArray, sccBaseArray := [], [], [], [];
      currentNode, destructCount := null, 0;
    }

    ghost predicate NodesInv(heap: set<Box>)
      reads this`nodeArray, this`nodeMap, nodeArray, heap
    {
      Indexed(nodeArray, nodeMap, heap) && FlagsExact(nodeArray, heap) && Unsearched(nodeArray)
    }

    // ---- nodes -------------------------------------------------------------------

    /** Makes a node for a box that has none; past the limit of the index field the map takes over. */
    method AppendNode(box: Box, ghost heap: set<Box>) returns (node: DestructGraphNode)
      requires NodesInv(heap) && box in heap && !box.InGraph()
      modifies this`nodeArray, this`nodeMap, box
      ensures NodesInv(heap)
      ensures fresh(node) && node.box == box && nodeArray == old(nodeArray) + [node]
      ensures box.flags - GRAPH_FLAGS == old(box.flags) - GRAPH_FLAGS
    {
      var i := |nodeArray|;
      node := new DestructGraphNode(box, i);
      nodeArray := nodeArray + [node];
      if i < BOX_INDEX_LIMIT {
        box.flags := box.flags + {BoxFlag.Index};
        box.index := i;
      } else {
        box.flags := box.flags + {BoxFlag.Map};
        nodeMap := nodeMap[box := node];
      }
      assert BoxesIn(nodeArray) == BoxesIn(old(nodeArray)) + [box];
      forall k: nat | k < |nodeArray|
        ensures Registered(nodeArray, nodeMap, k)
      {
        assert k < i ==> old(Registered(nodeArray, nodeMap, k));
      }
    }

    method GetNode(box: Box, ghost heap: set<Box>) returns (node: DestructGraphNode)
      requires NodesInv(heap) && box in heap
      modifies this`nodeArray, this`nodeMap, box
      ensures NodesInv(heap)
      ensures node in nodeArray && node.box == box
      ensures box in BoxesIn(old(nodeArray)) ==> nodeArray == old(nodeArray)
      ensures box !in BoxesIn(old(nodeArray)) ==> fresh(node) && nodeArray == old(nodeArray) + [node]
      ensures box.flags - GRAPH_FLAGS == old(box.flags) - GRAPH_FLAGS
    {
      if BoxFlag.Index in box.flags {
        assert box.InGraph();
        ghost var k :| 0 <= k < |BoxesIn(nodeArray)| && BoxesIn(nodeArray)[k] == box;
        assert Registered(nodeArray, nodeMap, k);
        node := nodeArray[box.index];
      } else if BoxFlag.Map in box.flags {
        assert box.InGraph();
        ghost var k :| 0 <= k < |BoxesIn(nodeArray)| && BoxesIn(nodeArray)[k] == box;
        assert Registered(nodeArray, nodeMap, k);
        node := nodeMap[box];
      } else {
        node := AppendNode(box, heap);
      }
    }

    // ---- edges -------------------------------------------------------------------

    method AddNodeEdge(srcNode: DestructGraphNode, dstNode: DestructGraphNode,
                       ghost heap: set<Box>, ghost refs: seq<Ref>)
      requires NodesInv(heap) && Mirrors(nodeArray, unsortedEdges, refs) && srcNode in nodeArray && dstNode in nodeArray
      modifies this`unsortedEdges
      ensures NodesInv(heap)
      ensures Mirrors(nodeArray, unsortedEdges,
                      refs + if srcNode.box == dstNode.box then [] else [Ref(srcNode.box, dstNode.box)])
    {
      if srcNode != dstNode {
        unsortedEdges := unsortedEdges + [Edge(srcNode.index, dstNode.index)];
      }
    }

    method AddEdge(parent: DestructGraphNode, box: Box, ghost heap: set<Box>, ghost refs: seq<Ref>)
      returns (node: DestructGraphNode)
      requires NodesInv(heap) && Mirrors(nodeArray, unsortedEdges, refs) && parent in nodeArray && box in heap
      modifies this`nodeArray, this`nodeMap, this`unsortedEdges, box
      ensures NodesInv(heap) && node in nodeArray && node.box == box
      ensures Mirrors(nodeArray, unsortedEdges, refs + if parent.box == box then [] else [Ref(parent.box, box)])
      ensures old(nodeArray) <= nodeArray
      ensures forall k :: |old(nodeArray)| <= k < |nodeArray| ==> fresh(nodeArray[k])
      ensures box.flags - GRAPH_FLAGS == old(box.flags) - GRAPH_FLAGS
    {
      hide Indexed, FlagsExact, Unsearched;
      node := GetNode(box, heap);
      AddNodeEdge(parent, node, heap, refs);
    }

    /** Marks leave the graph's own flags alone. */
    method AddMarks(box: Box, marks: MarkFlags, ghost heap: set<Box>)
      requires NodesInv(heap) && box in heap
      modifies box
      ensures NodesInv(heap) && box.flags == old(box.flags) + marks
    {
      box.flags := box.flags + marks;
      forall k: nat | k < |nodeArray|
        ensures Registered(nodeArray, nodeMap, k)
      {
        assert old(Registered(nodeArray, nodeMap, k));
      }
    }

    /** One step of a mark pass. */
    method Mark(op: MarkOp, ghost heap: set<Box>, ghost refs: seq<Ref>)
      requires NodesInv(heap) && Mirrors(nodeArray, unsortedEdges, refs) && BoxesOf(op) <= heap
      requires currentNode != null && currentNode in nodeArray
      modifies this`nodeArray, this`nodeMap, this`unsortedEdges, this`currentNode, heap
      ensures NodesInv(heap) && currentNode != null && currentNode in nodeArray
      ensures currentNode.box == CurrentAfter([op], old(currentNode.box))
      ensures Mirrors(nodeArray, unsortedEdges, refs + RefOf(op, old(currentNode.box)))
      ensures old(nodeArray) <= nodeArray
      ensures forall k :: |old(nodeArray)| <= k < |nodeArray| ==> fresh(nodeArray[k])
      ensures forall b :: b in heap ==> b.flags - GRAPH_FLAGS == old(b.flags) - GRAPH_FLAGS + MarksOf(op, b)
    {
      hide Indexed, FlagsExact, Unsearched;
      match op
      case SetMarks(b, marks) =>
        AddMarks(b, marks, heap);
        assert refs + [] == refs;
      case Touch(b) =>
        var _ := GetNode(b, heap);
        assert refs + [] == refs;
      case SetCurrent(b) =>
        currentNode := GetNode(b, heap);
        assert refs + [] == refs;
      case AddEdge(b) =>
        var _ := AddEdge(currentNode, b, heap, refs);
      case AddEdgeFrom(p, b) =>
        var parent := GetNode(p, heap);
        assert old(nodeArray) <= nodeArray;
        var _ := AddEdge(parent, b, heap, refs);
    }

    /** Any number of steps of a mark pass. */
    method RunMarks(ops: seq<MarkOp>, ghost heap: set<Box>, ghost refs: seq<Ref>)
      requires NodesInv(heap) && Mirrors(nodeArray, unsortedEdges, refs) && Within(ops, heap)
      requires currentNode != null && currentNode in nodeArray
      modifies this`nodeArray, this`nodeMap, this`unsortedEdges, this`currentNode, heap
      ensures NodesInv(heap) && currentNode != null && currentNode in nodeArray
      ensures currentNode.box == CurrentAfter(ops, old(currentNode.box))
      ensures Mirrors(nodeArray, unsortedEdges, refs + RefsOf(ops, old(currentNode.box)))
      ensures old(nodeArray) <= nodeArray
      ensures forall k :: |old(nodeArray)| <= k < |nodeArray| ==> fresh(nodeArray[k])
      ensures forall b :: b in heap ==> b.flags - GRAPH_FLAGS == old(b.flags) - GRAPH_FLAGS + MarksOn(ops, b)
    {
      hide NodesInv, Mirrors, RefsOf, RefOf, CurrentAfter, MarksOn, MarksOf;
      ghost var current := currentNode.box;
      NoMarks(refs, current);
      for j := 0 to |ops|
        invariant NodesInv(heap) && currentNode != null && currentNode in nodeArray
        invariant currentNode.box == CurrentAfter(ops[..j], current)
        invariant Mirrors(nodeArray, unsortedEdges, refs + RefsOf(ops[..j], current))
        invariant old(nodeArray) <= nodeArray
        invariant forall k :: |old(nodeArray)| <= k < |nodeArray| ==> fresh(nodeArray[k])
        invariant forall b :: b in heap ==> b.flags - GRAPH_FLAGS == old(b.flags) - GRAPH_FLAGS + MarksOn(ops[..j], b)
      {
        MarksNext(ops, j, current);
        forall b | b in heap ensures MarksOn(ops[..j + 1], b) == MarksOn(ops[..j], b) + MarksOf(ops[j], b) {
          MarksOnNext(ops, j, b);
        }
        Mark(ops[j], heap, refs + RefsOf(ops[..j], current));
        assert refs + RefsOf(ops[..j + 1], current) ==
               refs + RefsOf(ops[..j], current) + RefOf(ops[j], CurrentAfter(ops[..j], current));
      }
      assert ops[..|ops|] == ops;
    }

    // ---- build -----------------------------------------------------------------

    method RegisterCandidates(destructArray: seq<IfacePtr>, ghost heap: set<Box>)
      requires forall k :: 0 <= k < |destructArray| ==> destructArray[k].IfacePtr? && destructArray[k].box in heap
      requires forall j, k :: 0 <= j < k < |destructArray| ==> destructArray[j].box != destructArray[k].box
      requires forall b :: b in heap ==> !b.InGraph()
      modifies this`nodeArray, this`nodeMap, heap
      ensures NodesInv(heap) && |nodeArray| == |destructArray|
      ensures forall k :: 0 <= k < |nodeArray| ==> nodeArray[k].box == destructArray[k].box
      ensures forall k :: 0 <= k < |nodeArray| ==> fresh(nodeArray[k])
      ensures forall b :: b in heap ==> b.flags - GRAPH_FLAGS == old(b.flags) - GRAPH_FLAGS
    {
      var count := |destructArray|;
      nodeArray, nodeMap := [], map[];
      for i := 0 to count
        invariant |nodeArray| == i && NodesInv(heap)
        invariant forall k :: 0 <= k < i ==> nodeArray[k].box == destructArray[k].box
        invariant forall k :: 0 <= k < |nodeArray| ==> fresh(nodeArray[k])
        invariant forall b :: b in heap ==> b.flags - GRAPH_FLAGS == old(b.flags) - GRAPH_FLAGS
      {
        var _ := AppendNode(destructArray[i].box, heap);
      }
    }

    ghost function Table(): EdgeTable
      reads this`sortedEdges, this`edgeBase
    {
      EdgeTable(sortedEdges, edgeBase)
    }

    /** Buckets the edges by source node. */
    method SortEdges(ghost refs: seq<Ref>)
      requires Mirrors(nodeArray, unsortedEdges, refs) && |nodeArray| > 0
      modifies this`sortedEdges, this`edgeBase
      ensures ValidTable(Table(), |nodeArray|)
      ensures multiset(sortedEdges) == multiset(unsortedEdges)
    {
      hide Start, ValidTable;
      var nodeCount, edgeCount := |nodeArray|, |unsortedEdges|;
      var sorted := new Edge[edgeCount](_ => Edge(0, 0));
      var base := new nat[nodeCount + 1](_ => 0);
      assert forall e :: 0 <= e < |refs| ==> Mirrors1(nodeArray, unsortedEdges[e], refs[e]);
      StartTotal(unsortedEdges, nodeCount);
      CountSort(sorted, unsortedEdges, base, nodeCount - 1);
      base[nodeCount] := edgeCount; // ends the last slice
      sortedEdges, edgeBase := sorted[..], base[..];
      SortedIsTable(unsortedEdges, sortedEdges, edgeBase, nodeCount);
    }

    /** The state after `build`: the candidates are the first nodes, and the edges are in the table. */
    ghost predicate Built(heap: set<Box>)
      reads this, nodeArray, heap
    {
      NodesInv(heap) && destructCount <= |nodeArray| && ValidTable(Table(), |nodeArray|)
    }

    lemma IsBuilt(heap: set<Box>)
      requires NodesInv(heap) && destructCount <= |nodeArray| && ValidTable(Table(), |nodeArray|)
      ensures Built(heap)
    {
    }

    ghost predicate Searchable()
      reads this, nodeArray
    {
      && Positions() && Unsearched(nodeArray)
      && destructCount <= |nodeArray|
      && ValidTable(Table(), |nodeArray|)
    }

    ghost predicate Positions()
      reads this`nodeArray
    {
      forall k :: 0 <= k < |nodeArray| ==> nodeArray[k].index == k
    }

    /** Makes each candidate current in turn and runs its part of the marking. */
    method MarkCandidates(marks: seq<seq<MarkOp>>, ghost boxes: seq<Box>, ghost heap: set<Box>)
      requires NodesInv(heap) && unsortedEdges == []
      requires boxes == BoxesIn(nodeArray) && 0 < |boxes| == |marks|
      requires forall k :: 0 <= k < |marks| ==> Within(marks[k], heap)
      modifies this`nodeArray, this`nodeMap, this`unsortedEdges, this`currentNode, heap
      ensures NodesInv(heap) && currentNode != null && currentNode in nodeArray
      ensures currentNode.box == CurrentAfter(MarkingOf(boxes, marks), boxes[0])
      ensures Mirrors(nodeArray, unsortedEdges, RefsOf(MarkingOf(boxes, marks), boxes[0]))
      ensures old(nodeArray) <= nodeArray
      ensures forall k :: |old(nodeArray)| <= k < |nodeArray| ==> fresh(nodeArray[k])
      ensures forall b :: b in heap ==>
                b.flags - GRAPH_FLAGS == old(b.flags) - GRAPH_FLAGS + MarksOn(MarkingOf(boxes, marks), b)
    {
      hide NodesInv, Mirrors, Within, MarkingOf, RefsOf, CurrentAfter, MarksOn;
      NoMarking(boxes, marks);
      NoReferences(nodeArray);
      for i := 0 to |marks|
        invariant NodesInv(heap)
        invariant i > 0 ==> currentNode != null && currentNode in nodeArray
        invariant i > 0 ==> currentNode.box == CurrentAfter(MarkingOf(boxes[..i], marks), boxes[0])
        invariant Mirrors(nodeArray, unsortedEdges, RefsOf(MarkingOf(boxes[..i], marks), boxes[0]))
        invariant old(nodeArray) <= nodeArray
        invariant forall k :: |old(nodeArray)| <= k < |nodeArray| ==> fresh(nodeArray[k])
        invariant forall b :: b in heap ==>
                    b.flags - GRAPH_FLAGS == old(b.flags) - GRAPH_FLAGS + MarksOn(MarkingOf(boxes[..i], marks), b)
      {
        currentNode := nodeArray[i];
        MarkingNext(boxes, marks, i);
        forall b | b in heap
          ensures MarksOn(MarkingOf(boxes[..i + 1], marks), b) ==
                  MarksOn(MarkingOf(boxes[..i], marks), b) + MarksOn(marks[i], b)
        {
          MarkingMarks(boxes, marks, i, b);
        }
        RunMarks(marks[i], heap, RefsOf(MarkingOf(boxes[..i], marks), boxes[0]));
      }
      assert boxes[..|marks|] == boxes;
    }

    method Build(destructArray: seq<IfacePtr>, marks: seq<seq<MarkOp>>, cycle: seq<MarkOp>, ghost heap: set<Box>)
      requires 0 < |destructArray| == |marks|
      requires forall k :: 0 <= k < |destructArray| ==> destructArray[k].IfacePtr? && destructArray[k].box in heap
      requires forall j, k :: 0 <= j < k < |destructArray| ==> destructArray[j].box != destructArray[k].box
      requires forall b :: b in heap ==> !b.InGraph()
      requires (forall k :: 0 <= k < |marks| ==> Within(marks[k], heap)) && Within(cycle, heap)
      modifies this, heap
      ensures Built(heap) && destructCount == |destructArray|
      ensures forall k :: 0 <= k < |destructArray| ==> nodeArray[k].box == destructArray[k].box
      ensures multiset(sortedEdges) == multiset(unsortedEdges)
      ensures var boxes := BoxesOfAll(destructArray);
        Mirrors(nodeArray, unsortedEdges, RefsOf(MarkingOf(boxes, marks) + cycle, boxes[0]))
      ensures fresh(nodeArray)
      ensures var marking := MarkingOf(BoxesOfAll(destructArray), marks) + cycle;
        forall b :: b in heap ==> b.flags - GRAPH_FLAGS == old(b.flags) - GRAPH_FLAGS + MarksOn(marking, b)
    {
      hide NodesInv, ValidTable, Within, MarkingOf, RefsOf, CurrentAfter, MarksOn, Mirrors, DestructGraph.Built;
      ghost var boxes := BoxesOfAll(destructArray);
      unsortedEdges := [];
      RegisterCandidates(destructArray, heap);
      assert BoxesIn(nodeArray) == boxes;
      MarkCandidates(marks, boxes, heap);
      ghost var marking := MarkingOf(boxes, marks);
      MarksAppend(marking, cycle, boxes[0]);
      AllMarksAppend(marking, cycle);
      RunMarks(cycle, heap, RefsOf(marking, boxes[0]));
      SortEdges(RefsOf(marking + cycle, boxes[0]));
      destructCount := |destructArray|;
      IsBuilt(heap);
    }

    // ---- tarjan ------------------------------------------------------------------

    /** The fields of the graph and of its nodes are those of `s`. */
    ghost predicate Shows(s: State)
      reads this, nodeArray
    {
      && |s.idx| == |s.low| == |s.scc| == |nodeArray|
      && (forall k :: 0 <= k < |nodeArray| ==>
            nodeArray[k].tarjanIdx == s.idx[k] && nodeArray[k].lowlink == s.low[k] && nodeArray[k].sccIdx == s.scc[k])
      && tarjanStack == s.stack && tarjanDfsStack == s.dfs
      && sccNodeArray == s.sccNodes && sccBaseArray == s.sccBase
    }

    method VisitNode(i: nat, dfsCounter: nat, ghost s: State) returns (nextCounter: nat)
      requires Positions() && Shows(s) && dfsCounter == s.counter && i < |nodeArray| && i + 1 < |edgeBase|
      modifies this`tarjanStack, this`tarjanDfsStack, nodeArray
      ensures Shows(Visit(Table(), s, i)) && nextCounter == Visit(Table(), s, i).counter
    {
      nodeArray[i].tarjanIdx, nodeArray[i].lowlink := dfsCounter, dfsCounter;
      nextCounter := dfsCounter + 1;
      tarjanStack := tarjanStack + [i];
      tarjanDfsStack := tarjanDfsStack + [Frame(i, edgeBase[i], edgeBase[i + 1])];
    }

    /** Moves the top of the stack into the component. */
    method PopOneNode(sccIdx: nat, ghost s: State) returns (j: nat)
      requires Positions() && Shows(s) && s.stack != [] && s.stack[|s.stack| - 1] < |nodeArray|
      modifies this`tarjanStack, this`sccNodeArray, nodeArray
      ensures j == s.stack[|s.stack| - 1] && Shows(PopOne(s, sccIdx))
    {
      j := tarjanStack[|tarjanStack| - 1];
      tarjanStack := tarjanStack[..|tarjanStack| - 1];
      nodeArray[j].sccIdx := sccIdx;
      sccNodeArray := sccNodeArray + [j];
    }

    /** Pops the component whose first visited node is `node`. */
    method PopComponent(node: DestructGraphNode, ghost s: State)
      requires Positions() && Shows(s) && node.index in s.stack
      requires node.index < |nodeArray| && nodeArray[node.index] == node && node.lowlink == node.tarjanIdx
      requires forall p :: 0 <= p < |s.stack| ==> s.stack[p] < |nodeArray|
      modifies this`tarjanStack, this`sccNodeArray, this`sccBaseArray, nodeArray
      ensures Shows(CloseComponent(s, node.index))
    {
      var sccIdx := |sccBaseArray|;
      sccBaseArray := sccBaseArray + [|sccNodeArray|];
      ghost var t := s.(sccBase := sccBaseArray);
      assert Shows(t) && CloseComponent(s, node.index) == PopScc(t, node.index, sccIdx);
      ghost var popped := PopScc(t, node.index, sccIdx);
      while true
        invariant Shows(t) && |t.scc| == |nodeArray| && node.index in t.stack
        invariant forall p :: 0 <= p < |t.stack| ==> t.stack[p] < |nodeArray|
        invariant PopScc(t, node.index, sccIdx) == popped
        decreases |t.stack|
      {
        hide Shows, Positions;
        var j := PopOneNode(sccIdx, t);
        t := PopOne(t, sccIdx);
        if j == node.index {
          break;
        }
      }
      assert t == popped;
    }

    /** Moves the top frame past one edge, entering the node it leads to if that is new. */
    method FollowEdge(dfsCounter: nat, ghost s: State) returns (nextCounter: nat)
      requires Positions() && Shows(s) && dfsCounter == s.counter
      requires InBounds(Table(), |nodeArray|, s) && s.dfs != [] && Top(s.dfs).edge < Top(s.dfs).end
      modifies this`tarjanStack, this`tarjanDfsStack, nodeArray
      ensures Shows(Step(Table(), |nodeArray|, s)) && nextCounter == Step(Table(), |nodeArray|, s).counter
    {
      var last := |tarjanDfsStack| - 1;
      var frame := tarjanDfsStack[last];
      var node := nodeArray[frame.node];
      var dstIdx := sortedEdges[frame.edge].dst;
      tarjanDfsStack := tarjanDfsStack[last := frame.(edge := frame.edge + 1)];
      var dstNode := nodeArray[dstIdx];
      if dstNode.tarjanIdx != -1 {
        nextCounter := dfsCounter;
        if dstNode.sccIdx == -1 { // its component is not closed
          node.lowlink := Min(node.lowlink, dstNode.tarjanIdx);
        }
      } else {
        nextCounter := VisitNode(dstIdx, dfsCounter, s.(dfs := Advance(s.dfs)));
      }
    }

    /** Drops the top frame, passing its node's lowlink on to the frame below. */
    method DropFrame(node: DestructGraphNode, ghost s: State)
      requires Positions() && Shows(s) && s.dfs != []
      requires forall k :: 0 <= k < |s.dfs| ==> s.dfs[k].node < |nodeArray|
      requires node == nodeArray[Top(s.dfs).node]
      modifies this`tarjanDfsStack, nodeArray
      ensures Shows(PopFrame(s))
    {
      tarjanDfsStack := tarjanDfsStack[..|tarjanDfsStack| - 1];
      if tarjanDfsStack != [] {
        var parent := nodeArray[tarjanDfsStack[|tarjanDfsStack| - 1].node];
        parent.lowlink := Min(parent.lowlink, node.lowlink);
      }
    }

    /** Closes the top frame's component if its node is the first of one, and drops the frame. */
    method FinishNode(ghost s: State)
      requires Positions() && Shows(s)
      requires InBounds(Table(), |nodeArray|, s) && s.dfs != [] && Top(s.dfs).edge >= Top(s.dfs).end
      modifies this`tarjanStack, this`tarjanDfsStack, this`sccNodeArray, this`sccBaseArray, nodeArray
      ensures Shows(Step(Table(), |nodeArray|, s)) && Step(Table(), |nodeArray|, s).counter == s.counter
    {
      var node := nodeArray[tarjanDfsStack[|tarjanDfsStack| - 1].node];
      if node.lowlink == node.tarjanIdx { // first of its component
        PopComponent(node, s);
      }
      DropFrame(node, CloseComponent(s, node.index));
    }

    lemma ShowsFrames(s: State)
      requires Shows(s)
      ensures tarjanDfsStack == s.dfs && |s.idx| == |s.low| == |nodeArray|
      ensures forall k :: 0 <= k < |nodeArray| ==> nodeArray[k].tarjanIdx == s.idx[k]
    {
    }

    /** Searches from the `i`-th candidate, which has not been visited. */
    method SearchSeed(i: nat, dfsCounter: nat, ghost g: EdgeTable, ghost s: State, ghost steps: nat)
      returns (nextCounter: nat, ghost t: State, ghost steps': nat)
      requires Positions() && Shows(s) && dfsCounter == s.counter && i < |nodeArray| && s.dfs == []
      requires g == Table() && |edgeBase| == |nodeArray| + 1 && s.idx[i] == -1
      requires Running(g, |nodeArray|, s, i, i, steps)
      modifies this`tarjanStack, this`tarjanDfsStack, this`sccNodeArray, this`sccBaseArray, nodeArray
      ensures Shows(t) && nextCounter == t.counter && t.dfs == []
      ensures Running(g, |nodeArray|, t, i + 1, i + 1, steps')
      ensures steps' >= steps && SeedRun(g, |nodeArray|, i, s, steps' - steps, t)
    {
      hide Iterates, Running, InBounds, Step, Positions, Visit, Visited, Shows;
      ghost var n := |nodeArray|;
      ShowsFrames(s);
      RunEntersSeed(g, n, s, i, steps);
      nextCounter := VisitNode(i, dfsCounter, s);
      ghost var start := Visit(g, s, i);
      t, steps' := start, steps;
      NoIteration(g, n, start);
      while tarjanDfsStack != []
        invariant Shows(t) && nextCounter == t.counter && Visited(t, i)
        invariant Running(g, n, t, i, i + 1, steps')
        invariant steps' >= steps && Iterates(g, n, start, steps' - steps, t)
        decreases n + |sortedEdges| - steps'
      {
        ShowsFrames(t);
        StepRuns(g, n, t, i, i + 1, steps');
        IteratesNext(g, n, start, steps' - steps, t);
        var frame := tarjanDfsStack[|tarjanDfsStack| - 1];
        if frame.edge < frame.end {
          nextCounter := FollowEdge(nextCounter, t);
        } else {
          FinishNode(t);
        }
        t, steps' := Step(g, n, t), steps' + 1;
      }
      ShowsFrames(t);
      RunLeavesSeed(g, n, t, i, i + 1, steps');
    }

    method ClearSearch()
      requires Unsearched(nodeArray)
      modifies this`tarjanStack, this`tarjanDfsStack, this`sccNodeArray, this`sccBaseArray
      ensures Shows(Initial(|nodeArray|))
    {
      tarjanStack, tarjanDfsStack, sccNodeArray, sccBaseArray := [], [], [], [];
    }

    method AppendSentinel(ghost s: State)
      requires Shows(s)
      modifies this`sccBaseArray
      ensures sccBaseArray == s.sccBase + [|sccNodeArray|]
      ensures Shows(s.(sccBase := sccBaseArray))
    {
      sccBaseArray := sccBaseArray + [|sccNodeArray|];
    }

    /**
     Orders the components of everything the candidates reach. `steps` counts the
     iterations of the inner loop, `t` is the final state before the sentinel.
     */
    method Tarjan() returns (ghost t: State, ghost steps: nat)
      requires Searchable()
      modifies this`tarjanStack, this`tarjanDfsStack, this`sccNodeArray, this`sccBaseArray, nodeArray
      ensures Reaches(Table(), |nodeArray|, destructCount, steps, t)
      ensures Searched(Table(), |nodeArray|, t, destructCount)
      ensures Shows(t.(sccBase := sccBaseArray)) && sccBaseArray == t.sccBase + [|sccNodeArray|]
      ensures steps == |VisitedNodes(t.idx, |nodeArray|)| + |VisitedEdges(Table(), t.idx, |sortedEdges|)|
    {
      hide Positions, Running, Searched, VisitedNodes, VisitedEdges, ValidTable, Unsearched, Shows, Reaches, SeedRun;
      ghost var g, n := Table(), |nodeArray|;
      TableEnd(g, n);
      ClearSearch();
      var dfsCounter := 0;
      t, steps := Initial(n), 0;
      RunStarts(g, n);
      NoSeed(g, n, steps, t);
      for i := 0 to destructCount
        invariant Shows(t) && dfsCounter == t.counter && t.dfs == []
        invariant Running(g, n, t, i, i, steps) && Reaches(g, n, i, steps, t)
      {
        ShowsFrames(t);
        if nodeArray[i].tarjanIdx == -1 {
          ghost var s, k := t, steps;
          dfsCounter, t, steps := SearchSeed(i, dfsCounter, g, t, steps);
          ReachesNext(g, n, i, k, s, steps - k, t);
        } else {
          SeedSkipped(g, n, t, i, steps);
          ReachesNext(g, n, i, steps, t, 0, t);
          RunLeavesSeed(g, n, t, i, i, steps);
        }
      }
      RunEnds(g, n, t, destructCount, steps);
      AppendSentinel(t);
    }

    // ---- emit ---------------------------------------------------------------------

    /** Moves the candidates of a slice to its front, in place. */
    method Compact(base: nat, end: nat) returns (p: nat)
      requires base <= end <= |sccNodeArray|
      modifies this`sccNodeArray
      ensures |sccNodeArray| == |old(sccNodeArray)| && base <= p <= end
      ensures sccNodeArray[..base] == old(sccNodeArray)[..base]
      ensures sccNodeArray[base..p] == Candidates(old(sccNodeArray)[base..end], destructCount)
    {
      p := base;
      ghost var a := sccNodeArray;
      hide Candidates;
      NoCandidates(a, base, destructCount);
      for j := base to end
        invariant |sccNodeArray| == |a| && base <= p <= j
        invariant sccNodeArray[..base] == a[..base]
        invariant sccNodeArray[j..end] == a[j..end] // nothing still to be read is overwritten
        invariant sccNodeArray[base..p] == Candidates(a[base..j], destructCount)
      {
        var k := sccNodeArray[j];
        assert k == sccNodeArray[j..end][0] == a[j..end][0] == a[j];
        CandidatesOfNext(a, base, j, destructCount);
        ShorterSlice(sccNodeArray, a, j, end, j + 1);
        if k < destructCount {
          UpdateOutside(sccNodeArray, p, k, 0, base);
          UpdateOutside(sccNodeArray, p, k, j + 1, end);
          UpdateBehind(sccNodeArray, base, p, k);
          sccNodeArray := sccNodeArray[p := k];
          p := p + 1;
        }
      }
    }

    /** Writes the main interfaces of the listed nodes from position `dst` on. */
    method EmitNodes(destructArray: IfaceArray, dst: nat, list: seq<nat>)
      requires dst + |list| <= |destructArray.items|
      requires forall k :: 0 <= k < |list| ==> list[k] < |nodeArray|
      modifies destructArray
      ensures |destructArray.items| == |old(destructArray.items)|
      ensures destructArray.items[..dst] == old(destructArray.items)[..dst]
      ensures destructArray.items[dst..dst + |list|] == IfacesOf(nodeArray, list)
    {
      for k := 0 to |list|
        invariant |destructArray.items| == |old(destructArray.items)|
        invariant destructArray.items[..dst] == old(destructArray.items)[..dst]
        invariant destructArray.items[dst..dst + k] == IfacesOf(nodeArray, list)[..k]
      {
        var box := nodeArray[list[k]].box;
        ghost var before := destructArray.items[dst..dst + k];
        destructArray.items := destructArray.items[dst + k := MainIface(box)];
        assert destructArray.items[dst..dst + k + 1] == before + [MainIface(box)];
      }
    }

    /** Compacts and sorts the candidates of a slice, at its front. */
    method SortSlice(p0: nat, end: nat) returns (p: nat)
      requires p0 <= end <= |sccNodeArray|
      modifies this`sccNodeArray
      ensures |sccNodeArray| == |old(sccNodeArray)| && p0 <= p <= end
      ensures sccNodeArray[..p0] == old(sccNodeArray)[..p0]
      ensures multiset(sccNodeArray[p0..p]) == multiset(Candidates(old(sccNodeArray)[p0..end], destructCount))
      ensures Descending(sccNodeArray[p0..p])
    {
      p := Compact(p0, end);
      if p - p0 > 1 {
        var sorted := SortDescending(sccNodeArray[p0..p]);
        assert |sorted| == |multiset(sorted)| == |multiset(sccNodeArray[p0..p])| == p - p0;
        sccNodeArray := sccNodeArray[..p0] + sorted + sccNodeArray[p..];
        assert sccNodeArray[p0..p] == sorted;
      }
    }

    /** Lists component `i` at the front of its slice. */
    method SortComponent(i: nat, ghost t: State) returns (p0: nat, p: nat)
      requires i < |t.sccBase| && sccBaseArray == t.sccBase + [|t.sccNodes|]
      requires Slices(t.scc, t.sccNodes, t.sccBase) && destructCount <= |t.scc|
      requires Untouched(sccNodeArray, t.sccNodes, sccBaseArray[i + 1])
      modifies this`sccNodeArray
      ensures p0 == sccBaseArray[i] <= p <= |sccNodeArray|
      ensures Untouched(sccNodeArray, t.sccNodes, p0)
      ensures ListsComponent(t.scc, destructCount, i, sccNodeArray[p0..p])
    {
      p0 := sccBaseArray[i];
      var end := sccBaseArray[i + 1];
      SliceBounds(t.scc, t.sccNodes, t.sccBase, i);
      hide Slices;
      assert sccNodeArray[p0..end] == sccNodeArray[..end][p0..] == t.sccNodes[..end][p0..] == Slice(t.sccNodes, t.sccBase, i);
      assert sccNodeArray[..p0] == sccNodeArray[..end][..p0] == t.sccNodes[..p0];
      p := SortSlice(p0, end);
      SliceListsComponent(t.scc, t.sccNodes, t.sccBase, destructCount, i, sccNodeArray[p0..p]);
    }

    /** Lists the candidates, an owner before what it owns. */
    method Emit(destructArray: IfaceArray, ghost t: State) returns (ghost order: seq<nat>)
      requires destructCount <= |nodeArray| && Searched(Table(), |nodeArray|, t, destructCount)
      requires sccNodeArray == t.sccNodes && sccBaseArray == t.sccBase + [|t.sccNodes|]
      modifies destructArray, this`sccNodeArray
      ensures EmitOrder(t.scc, destructCount, order)
      ensures destructArray.items == old(destructArray.items) + IfacesOf(nodeArray, order)
    {
      hide Searched, Slices, ListedFrom, ListsComponent, EmitOrder, Written, Untouched;
      SearchedSlices(Table(), |nodeArray|, t, destructCount);
      var baseCount := |destructArray.items|;
      ghost var was := destructArray.items;
      destructArray.items := destructArray.items + seq(destructCount, _ => Null);
      var dst := baseCount;
      order := [];
      NothingWritten(destructArray.items, was, nodeArray);
      WholeUntouched(sccNodeArray);
      NothingListed(t.scc, t.sccNodes, t.sccBase, destructCount);
      for i := |sccBaseArray| - 1 downto 0 // one base less than entries
        invariant ListedFrom(t.scc, destructCount, i, order)
        invariant |destructArray.items| == baseCount + destructCount && dst == baseCount + |order|
        invariant Written(destructArray.items, was, nodeArray, order)
        invariant Untouched(sccNodeArray, t.sccNodes, sccBaseArray[i])
      {
        var p0, p := SortComponent(i, t);
        ghost var seg, before := sccNodeArray[p0..p], destructArray.items;
        ListedBelow(t.scc, destructCount, i, seg);
        ListComponent(t.scc, destructCount, i, order, seg);
        ListedBound(t.scc, destructCount, i, order + seg);
        EmitNodes(destructArray, dst, sccNodeArray[p0..p]);
        EmitMore(nodeArray, was, before, destructArray.items, order, seg);
        dst := dst + (p - p0);
        order := order + seg;
      }
      ListedAll(Table(), |nodeArray|, t, destructCount, order);
      EmitOrderSize(t.scc, destructCount, order);
      AllWritten(destructArray.items, was, nodeArray, order);
    }

    // ---- cleanup ------------------------------------------------------------------

    /** Clears the flags set on boxes and forgets the nodes. */
    method Cleanup(ghost heap: set<Box>)
      requires forall k :: 0 <= k < |nodeArray| ==> nodeArray[k].box in heap
      requires FlagsExact(nodeArray, heap)
      modifies this`nodeArray, this`nodeMap, this`currentNode, heap
      ensures forall b :: b in heap ==> !b.InGraph() && b.flags == old(b.flags) - GRAPH_FLAGS
      ensures nodeArray == [] && nodeMap == map[] && currentNode == null
    {
      for k := 0 to |nodeArray|
        invariant nodeArray == old(nodeArray)
        invariant forall b :: b in heap ==> b.flags == old(b.flags) || b.flags == old(b.flags) - GRAPH_FLAGS
        invariant forall l :: 0 <= l < k ==> nodeArray[l].box.flags == old(nodeArray[l].box.flags) - GRAPH_FLAGS
      {
        nodeArray[k].box.flags := nodeArray[k].box.flags - GRAPH_FLAGS;
      }
      forall b | b in heap
        ensures !b.InGraph() && b.flags == old(b.flags) - GRAPH_FLAGS
      {
        if b in BoxesIn(nodeArray) {
          var l :| 0 <= l < |BoxesIn(nodeArray)| && BoxesIn(nodeArray)[l] == b;
          assert nodeArray[l].box == b;
        } else {
          assert !old(b.InGraph());
        }
      }
      nodeArray, nodeMap, currentNode := [], map[], null;
    }
  }
}
