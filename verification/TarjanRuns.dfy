/**
 The search as a whole: the state that the nested loops of `DestructGraph::tarjan` come to,
 and after how many iterations of the inner one.
 */
module TarjanRuns {
  import opened Reachability
  import opened TarjanSteps
  import opened TarjanSearch

  // ---- the inner loop --------------------------------------------------------------

  /** `k` iterations lead from `s` to `t`. */
  ghost predicate Iterates(g: EdgeTable, n: nat, s: State, k: nat, t: State)
    decreases k
  {
    if k == 0 then s == t
    else s.dfs != [] && InBounds(g, n, s) && Iterates(g, n, Step(g, n, s), k - 1, t)
  }

  lemma NoIteration(g: EdgeTable, n: nat, s: State)
    ensures Iterates(g, n, s, 0, s)
  {
  }

  lemma {:induction false} IteratesJoin(g: EdgeTable, n: nat, s: State, k: nat, t: State, l: nat, u: State)
    requires Iterates(g, n, s, k, t) && Iterates(g, n, t, l, u)
    ensures Iterates(g, n, s, k + l, u)
    decreases k
  {
    hide Step, InBounds;
    if k > 0 {
      IteratesJoin(g, n, Step(g, n, s), k - 1, t, l, u);
    }
  }

  lemma IteratesNext(g: EdgeTable, n: nat, s: State, k: nat, t: State)
    requires Iterates(g, n, s, k, t) && t.dfs != [] && InBounds(g, n, t)
    ensures Iterates(g, n, s, k + 1, Step(g, n, t))
  {
    hide Step, InBounds;
    assert Iterates(g, n, Step(g, n, t), 0, Step(g, n, t));
    IteratesJoin(g, n, s, k, t, 1, Step(g, n, t));
  }

  lemma {:induction false} IterationsDetermined(g: EdgeTable, n: nat, s: State, k: nat, t: State, l: nat, u: State)
    requires Iterates(g, n, s, k, t) && t.dfs == [] && Iterates(g, n, s, l, u) && u.dfs == []
    ensures k == l && t == u
    decreases k
  {
    hide Step, InBounds;
    if s.dfs != [] {
      IterationsDetermined(g, n, Step(g, n, s), k - 1, t, l - 1, u);
    }
  }

  lemma {:induction false} IterationsRun(g: EdgeTable, n: nat, s: State, r: nat, last: nat, steps: nat, k: nat, t: State)
    requires Running(g, n, s, r, last, steps) && Iterates(g, n, s, k, t)
    ensures Running(g, n, t, r, last, steps + k)
    ensures forall v: nat :: Visited(s, v) ==> Visited(t, v)
    decreases k
  {
    hide Running, Step, InBounds, Visited;
    if k > 0 {
      StepRuns(g, n, s, r, last, steps);
      IterationsRun(g, n, Step(g, n, s), r, last, steps + 1, k - 1, t);
    }
  }

  lemma {:induction false} IterationsEnd(g: EdgeTable, n: nat, s: State, r: nat, last: nat, steps: nat)
    returns (k: nat, t: State)
    requires Running(g, n, s, r, last, steps)
    ensures Iterates(g, n, s, k, t) && t.dfs == []
    decreases n + |g.edges| - steps
  {
    hide Running, Step, InBounds;
    if s.dfs == [] {
      k, t := 0, s;
    } else {
      StepRuns(g, n, s, r, last, steps);
      k, t := IterationsEnd(g, n, Step(g, n, s), r, last, steps + 1);
      k := k + 1;
    }
  }

  // ---- one seed ----------------------------------------------------------------------

  /** What the outer loop does with seed `r`: if it is not visited yet, it is searched to the end. */
  ghost predicate SeedRun(g: EdgeTable, n: nat, r: nat, s: State, k: nat, t: State) {
    && s.dfs == [] && t.dfs == [] && r + 1 < |g.base| && r < |s.idx| && r < |s.low|
    && if s.idx[r] == -1 then Iterates(g, n, Visit(g, s, r), k, t) else k == 0 && t == s
  }

  lemma SeedDetermined(g: EdgeTable, n: nat, r: nat, s: State, k: nat, t: State, l: nat, u: State)
    requires SeedRun(g, n, r, s, k, t) && SeedRun(g, n, r, s, l, u)
    ensures k == l && t == u
  {
    hide Iterates;
    if s.idx[r] == -1 {
      IterationsDetermined(g, n, Visit(g, s, r), k, t, l, u);
    }
  }

  lemma SeedBounds(g: EdgeTable, n: nat, s: State, r: nat, steps: nat)
    requires Running(g, n, s, r, r, steps) && r < n
    ensures Inv(g, n, s) && |s.idx| == |s.low| == |s.scc| == n && |g.base| == n + 1
  {
    TableEnd(g, n);
  }

  lemma SeedSkipped(g: EdgeTable, n: nat, s: State, r: nat, steps: nat)
    requires Running(g, n, s, r, r, steps) && r < n && s.dfs == [] && Visited(s, r)
    ensures SeedRun(g, n, r, s, 0, s)
  {
    hide Running, Inv, Iterates;
    SeedBounds(g, n, s, r, steps);
  }

  lemma SeedRuns(g: EdgeTable, n: nat, r: nat, s: State, steps: nat, k: nat, t: State)
    requires Running(g, n, s, r, r, steps) && r < n && SeedRun(g, n, r, s, k, t)
    ensures Running(g, n, t, r + 1, r + 1, steps + k) && t.dfs == []
  {
    hide Running, Iterates, Visit, Inv;
    SeedBounds(g, n, s, r, steps);
    if s.idx[r] == -1 {
      RunEntersSeed(g, n, s, r, steps);
      IterationsRun(g, n, Visit(g, s, r), r, r + 1, steps, k, t);
      RunLeavesSeed(g, n, t, r, r + 1, steps + k);
    } else {
      RunLeavesSeed(g, n, s, r, r, steps);
    }
  }

  lemma SeedHasEnd(g: EdgeTable, n: nat, r: nat, s: State, steps: nat) returns (k: nat, t: State)
    requires Running(g, n, s, r, r, steps) && r < n && s.dfs == []
    ensures SeedRun(g, n, r, s, k, t)
  {
    hide Running, Iterates, Visit, Inv;
    SeedBounds(g, n, s, r, steps);
    k, t := 0, s;
    if s.idx[r] == -1 {
      RunEntersSeed(g, n, s, r, steps);
      k, t := IterationsEnd(g, n, Visit(g, s, r), r, r + 1, steps);
    }
  }

  // ---- all seeds -----------------------------------------------------------------------

  /** From the start the search of the first `m` seeds comes to `t`, after `steps` iterations of the inner loop. */
  ghost predicate Reaches(g: EdgeTable, n: nat, m: nat, steps: nat, t: State)
    decreases m, 1
  {
    if m == 0 then t == Initial(n) && steps == 0
    else exists s: State, k: nat, l: nat :: ReachesVia(g, n, m, s, k, l, t) && steps == k + l
  }

  ghost predicate ReachesVia(g: EdgeTable, n: nat, m: nat, s: State, k: nat, l: nat, t: State)
    decreases m, 0
  {
    m > 0 && Reaches(g, n, m - 1, k, s) && SeedRun(g, n, m - 1, s, l, t)
  }

  lemma NoSeed(g: EdgeTable, n: nat, steps: nat, t: State)
    ensures Reaches(g, n, 0, steps, t) <==> t == Initial(n) && steps == 0
  {
  }

  lemma ReachesNext(g: EdgeTable, n: nat, r: nat, k: nat, s: State, l: nat, t: State)
    requires Reaches(g, n, r, k, s) && SeedRun(g, n, r, s, l, t)
    ensures Reaches(g, n, r + 1, k + l, t)
  {
    hide SeedRun;
    assert ReachesVia(g, n, r + 1, s, k, l, t);
  }

  lemma LastSeed(g: EdgeTable, n: nat, m: nat, steps: nat, t: State) returns (s: State, k: nat, l: nat)
    requires m > 0 && Reaches(g, n, m, steps, t)
    ensures Reaches(g, n, m - 1, k, s) && SeedRun(g, n, m - 1, s, l, t) && steps == k + l
  {
    hide SeedRun;
    s, k, l :| ReachesVia(g, n, m, s, k, l, t) && steps == k + l;
  }

  /** The search is determined by the table, its order of edges included. */
  lemma {:induction false} SearchDetermined(g: EdgeTable, n: nat, m: nat, k: nat, t: State, l: nat, u: State)
    requires Reaches(g, n, m, k, t) && Reaches(g, n, m, l, u)
    ensures k == l && t == u
  {
    hide Reaches, SeedRun;
    if m == 0 {
      NoSeed(g, n, k, t);
      NoSeed(g, n, l, u);
    } else {
      var s, k1, k2 := LastSeed(g, n, m, k, t);
      var s', l1, l2 := LastSeed(g, n, m, l, u);
      SearchDetermined(g, n, m - 1, k1, s, l1, s');
      SeedDetermined(g, n, m - 1, s, k2, t, l2, u);
    }
  }

  lemma {:induction false} ReachedRuns(g: EdgeTable, n: nat, m: nat, steps: nat, t: State)
    requires ValidTable(g, n) && m <= n && Reaches(g, n, m, steps, t)
    ensures Running(g, n, t, m, m, steps) && t.dfs == []
  {
    hide Reaches, SeedRun, Running, ValidTable;
    if m == 0 {
      NoSeed(g, n, steps, t);
      RunStarts(g, n);
    } else {
      var s, k, l := LastSeed(g, n, m, steps, t);
      ReachedRuns(g, n, m - 1, k, s);
      SeedRuns(g, n, m - 1, s, k, l, t);
    }
  }

  /** The search of any table comes to an end. */
  lemma {:induction false} SearchReaches(g: EdgeTable, n: nat, m: nat) returns (steps: nat, t: State)
    requires ValidTable(g, n) && m <= n
    ensures Reaches(g, n, m, steps, t)
  {
    hide Reaches, SeedRun, Running, ValidTable;
    if m == 0 {
      steps, t := 0, Initial(n);
      NoSeed(g, n, steps, t);
    } else {
      var k, s := SearchReaches(g, n, m - 1);
      ReachedRuns(g, n, m - 1, k, s);
      var l;
      l, t := SeedHasEnd(g, n, m - 1, s, k);
      ReachesNext(g, n, m - 1, k, s, l, t);
      steps := k + l;
    }
  }

  /** Where it ends, it has found the components, with one iteration per visited node and per edge leaving one. */
  lemma ReachedSearched(g: EdgeTable, n: nat, m: nat, steps: nat, t: State)
    requires ValidTable(g, n) && m <= n && Reaches(g, n, m, steps, t)
    ensures Searched(g, n, t, m)
    ensures steps == |VisitedNodes(t.idx, n)| + |VisitedEdges(g, t.idx, |g.edges|)|
  {
    hide Reaches, Running, Searched, ValidTable;
    ReachedRuns(g, n, m, steps, t);
    RunEnds(g, n, t, m, steps);
  }
}
