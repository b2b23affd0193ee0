/**
 Directed multigraphs given by their edges, and reachability along paths.
 Nothing here refers to a search: this is the reference notion the search is proved against.
 */
module Reachability {

  datatype Edge = Edge(src: nat, dst: nat)

  /** `via` lists the nodes entered on a walk from `u` to `v`. */
  ghost predicate Path(es: multiset<Edge>, u: nat, via: seq<nat>, v: nat)
    decreases |via|
  {
    if via == [] then u == v
    else Edge(u, via[0]) in es && Path(es, via[0], via[1..], v)
  }

  ghost predicate Reach(es: multiset<Edge>, u: nat, v: nat) {
    exists via :: Path(es, u, via, v)
  }

  /** Each of the two nodes reaches the other: they lie in one strongly connected component. */
  ghost predicate Mutual(es: multiset<Edge>, u: nat, v: nat) {
    Reach(es, u, v) && Reach(es, v, u)
  }

  ghost predicate Closed(es: multiset<Edge>, s: set<nat>) {
    forall e :: e in es && e.src in s ==> e.dst in s
  }

  lemma ReachSelf(es: multiset<Edge>, u: nat)
    ensures Reach(es, u, u)
  {
    assert Path(es, u, [], u);
  }

  lemma ReachEdge(es: multiset<Edge>, u: nat, v: nat)
    requires Edge(u, v) in es
    ensures Reach(es, u, v)
  {
    assert Path(es, v, [], v);
    assert Path(es, u, [v], v);
  }

  lemma {:induction false} PathJoin(es: multiset<Edge>, u: nat, p: seq<nat>, v: nat, q: seq<nat>, w: nat)
    requires Path(es, u, p, v) && Path(es, v, q, w)
    ensures Path(es, u, p + q, w)
    decreases |p|
  {
    if p == [] {
      assert p + q == q;
    } else {
      PathJoin(es, p[0], p[1..], v, q, w);
      assert (p + q)[1..] == p[1..] + q;
    }
  }

  lemma ReachTransitive(es: multiset<Edge>, u: nat, v: nat, w: nat)
    requires Reach(es, u, v) && Reach(es, v, w)
    ensures Reach(es, u, w)
  {
    var p :| Path(es, u, p, v);
    var q :| Path(es, v, q, w);
    PathJoin(es, u, p, v, q, w);
  }

  lemma {:induction false} PathStaysInside(es: multiset<Edge>, s: set<nat>, u: nat, via: seq<nat>, v: nat)
    requires Closed(es, s) && u in s && Path(es, u, via, v)
    ensures v in s
    decreases |via|
  {
    if via != [] {
      assert Edge(u, via[0]) in es;
      PathStaysInside(es, s, via[0], via[1..], v);
    }
  }

  /** A set of nodes that no edge leaves is left by no path. */
  lemma ReachStaysInside(es: multiset<Edge>, s: set<nat>, u: nat, v: nat)
    requires Closed(es, s) && u in s && Reach(es, u, v)
    ensures v in s
  {
    var via :| Path(es, u, via, v);
    PathStaysInside(es, s, u, via, v);
  }
}
