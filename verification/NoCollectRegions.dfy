/**
 The heap's count of threads in a no-collect region, against the levels that call sites save
 and put back.
 */
module NoCollectRegions {
  import opened CallSites

  // ---- the heap ------------------------------------------------------------------

  /** The part of a runtime's heap that holds off collections. */
  class GcHeap {
    var noCollectMutatorThreadCount: int

    constructor ()
      ensures noCollectMutatorThreadCount == 0
    {
      noCollectMutatorThreadCount := 0;
    }

    method EnterNoCollectRegion(tls: Tls)
      modifies this, tls`noCollect
      ensures tls.noCollect == old(tls.noCollect) + 1
      ensures noCollectMutatorThreadCount == old(noCollectMutatorThreadCount) + if old(tls.noCollect) == 0 then 1 else 0
    {
      if tls.noCollect > 0 {
        tls.noCollect := tls.noCollect + 1;
        return;
      }
      tls.noCollect := 1;
      noCollectMutatorThreadCount := noCollectMutatorThreadCount + 1;
    }

    method LeaveNoCollectRegion(tls: Tls)
      requires tls.noCollect > 0
      modifies this, tls`noCollect
      ensures tls.noCollect == old(tls.noCollect) - 1
      ensures noCollectMutatorThreadCount == old(noCollectMutatorThreadCount) - if tls.noCollect == 0 then 1 else 0
    {
      if tls.noCollect > 1 {
        tls.noCollect := tls.noCollect - 1;
        return;
      }
      tls.noCollect := 0;
      noCollectMutatorThreadCount := noCollectMutatorThreadCount - 1;
    }

    method UnregisterMutatorThread(tls: Tls)
      modifies this
      ensures noCollectMutatorThreadCount == old(noCollectMutatorThreadCount) - if tls.noCollect > 0 then 1 else 0
    {
      if tls.noCollect > 0 {
        noCollectMutatorThreadCount := noCollectMutatorThreadCount - 1;
      }
    }

    /** Whether a collection that is asked for takes place. */
    method Collect() returns (collects: bool)
      ensures collects <==> Collects(noCollectMutatorThreadCount)
    {
      collects := noCollectMutatorThreadCount == 0;
    }
  }

  /** Every collection but those at shutdown waits for this. */
  predicate Collects(count: int) {
    count == 0
  }

  function EnterChange(level: nat): int {
    if level == 0 then 1 else 0
  }

  function LeaveChange(level: nat): int {
    if level == 1 then -1 else 0
  }

  function UnregisterChange(level: nat): int {
    if level > 0 then -1 else 0
  }

  // ---- one thread ------------------------------------------------------------------

  /** The level of the thread in runtime `r`, 0 if it is not in that runtime. */
  ghost function LevelIn(s: Thread, r: Runtime): nat
    requires Inv(s)
  {
    var j := FindSite(s.sites, r);
    if j < 0 then 0 else s.tls[s.sites[j].tls].noCollect
  }

  ghost function Inside(s: Thread, r: Runtime): int
    requires Inv(s)
  {
    if LevelIn(s, r) > 0 then 1 else 0
  }

  /**
   What an event does to the count of `r`'s heap. The end of a call site puts the saved level
   back first, and an outermost one then unregisters the thread with that level.
   */
  ghost function CountChange(s: Thread, e: Event, r: Runtime): int
    requires Inv(s) && Happens(s, e, 0)
  {
    if e.Open? || Top(s.sites).tls.runtime != r then 0
    else
      var c, v := Top(s.sites), s.tls[Top(s.sites).tls];
      match e
      case Act(op) =>
        if op.RaiseNoCollect? then EnterChange(v.noCollect)
        else if op.LowerNoCollect? then LeaveChange(v.noCollect)
        else 0
      case Close => if c.nestLevel == 0 then UnregisterChange(c.noCollect) else 0
  }

  /** A call site of `r` ends inside a region that it was not opened in. */
  ghost predicate Leaks(s: Thread, e: Event, r: Runtime)
    requires Inv(s) && Happens(s, e, 0)
  {
    && e.Close? && Top(s.sites).tls.runtime == r
    && s.tls[Top(s.sites).tls].noCollect > 0 && Top(s.sites).noCollect == 0
  }

  lemma LevelIs(s: Thread, t: Tls)
    requires Inv(s) && t in s.tls
    ensures LevelIn(s, t.runtime) == s.tls[t].noCollect
  {
    ChainFound(s.sites, t);
  }

  lemma NoLevel(s: Thread, r: Runtime)
    requires Inv(s) && forall t :: t in s.tls ==> t.runtime != r
    ensures LevelIn(s, r) == 0
  {
  }

  /** Where a step leaves storage of `r` and its level alone, it leaves the level of the thread. */
  lemma SameLevel(s: Thread, s': Thread, r: Runtime)
    requires Inv(s) && Inv(s')
    requires forall t :: t in s.tls && t.runtime == r ==> t in s'.tls && s'.tls[t].noCollect == s.tls[t].noCollect
    requires forall t :: t in s'.tls && t.runtime == r ==> t in s.tls
    ensures LevelIn(s', r) == LevelIn(s, r)
  {
    hide Inv, LevelIn;
    if t :| t in s.tls && t.runtime == r {
      LevelIs(s, t);
      LevelIs(s', t);
    } else {
      NoLevel(s, r);
      NoLevel(s', r);
    }
  }

  lemma OpenKeepsLevel(s: Thread, n: Entry, r: Runtime)
    requires Inv(s) && Happens(s, Open(n), 0)
    ensures Inv(After(s, Open(n), 0)) && LevelIn(After(s, Open(n), 0), r) == LevelIn(s, r)
  {
    AfterKeepsInv(s, Open(n), 0);
    var s' := After(s, Open(n), 0);
    OpenLevels(s, n);
    hide Inv, LevelIn, Happens, After;
    if FindSite(s.sites, n.runtime) < 0 && r == n.runtime {
      NoLevel(s, r);
      LevelIs(s', n.storage);
    } else {
      SameLevel(s, s', r);
    }
  }

  /** Opening keeps the levels there are; new storage starts with level 0. */
  lemma OpenLevels(s: Thread, n: Entry)
    requires Inv(s) && Happens(s, Open(n), 0)
    ensures var s', new_ := After(s, Open(n), 0), FindSite(s.sites, n.runtime) < 0;
            && (forall t :: t in s'.tls <==> t in s.tls || (new_ && t == n.storage))
            && (forall t :: t in s.tls ==> s'.tls[t].noCollect == s.tls[t].noCollect)
            && (new_ ==> n.storage in s'.tls && n.storage.runtime == n.runtime && s'.tls[n.storage].noCollect == 0)
            && (new_ ==> forall t :: t in s.tls ==> t.runtime != n.runtime)
  {
    SharedStored(s);
    if FindSite(s.sites, n.runtime) < 0 {
      forall t | t in s.tls ensures t.runtime != n.runtime {
        ChainFound(s.sites, t);
      }
    }
    hide Inv, Nest;
  }

  /** A step changes the level of the current storage only. */
  lemma ActLevel(s: Thread, op: Op, r: Runtime)
    requires Inv(s) && Happens(s, Act(op), 0)
    ensures Inv(After(s, Act(op), 0))
    ensures var c, v := Top(s.sites), s.tls[Top(s.sites).tls];
            && LevelIn(s, c.tls.runtime) == v.noCollect
            && LevelIn(After(s, Act(op), 0), r) ==
               if c.tls.runtime == r then ApplyTls(v, op, c).noCollect else LevelIn(s, r)
  {
    hide Inv, LevelIn, Enabled, ApplyTls, ApplySite;
    AfterKeepsInv(s, Act(op), 0);
    var s', c := After(s, Act(op), 0), Top(s.sites);
    LevelIs(s, c.tls);
    LevelIs(s', c.tls);
    if r != c.tls.runtime {
      SameLevel(s, s', r);
    }
  }

  /** The end of a call site puts the saved level back, which is 0 for the outermost of a runtime. */
  lemma CloseLevel(s: Thread, r: Runtime)
    requires Inv(s) && Happens(s, Close, 0)
    ensures Inv(After(s, Close, 0))
    ensures var c, v := Top(s.sites), s.tls[Top(s.sites).tls];
            && LevelIn(s, c.tls.runtime) == v.noCollect >= c.noCollect
            && (c.nestLevel == 0 ==> c.noCollect == 0)
            && LevelIn(After(s, Close, 0), r) == if c.tls.runtime == r then c.noCollect else LevelIn(s, r)
  {
    hide Inv, LevelIn, Apply, ApplyTls;
    AfterKeepsInv(s, Close, 0);
    EndUnwinds(s);
    TopHolds(s);
    var s', c := After(s, Close, 0), Top(s.sites);
    LevelIs(s, c.tls);
    if c.nestLevel == 0 {
      OuterSavesNothing(s);
      CloseFrees(s);
    } else {
      LevelIs(s', c.tls);
    }
    if r != c.tls.runtime {
      SameLevel(s, s', r);
    } else if c.nestLevel == 0 {
      NoLevel(s', r);
    }
  }

  lemma CloseFrees(s: Thread)
    requires Inv(s) && Happens(s, Close, 0) && Top(s.sites).nestLevel == 0
    ensures forall t :: t in Unwind(s).tls ==> t.runtime != Top(s.sites).tls.runtime
  {
    UnwindShared(s);
    OuterOfRuntime(s.sites);
    forall t | t in Unwind(s).tls ensures t.runtime != Top(s.sites).tls.runtime {
      ChainFound(Unwind(s).sites, t);
    }
  }

  /**
   The count follows whether the thread is in a region, except that the end of a call site that
   leaves a region it was not opened in counts one too many.
   */
  lemma CountFollowsLevel(s: Thread, e: Event, r: Runtime)
    requires Inv(s) && Happens(s, e, 0)
    ensures Inv(After(s, e, 0))
    ensures CountChange(s, e, r) == Inside(After(s, e, 0), r) - Inside(s, r) + if Leaks(s, e, r) then 1 else 0
  {
    hide Inv, LevelIn, After, Enabled;
    match e
    case Open(n) => OpenKeepsLevel(s, n, r);
    case Act(op) => ActLevel(s, op, r);
    case Close => CloseLevel(s, r);
  }

  // ---- all threads -------------------------------------------------------------------

  ghost predicate AllInv(threads: seq<Thread>) {
    forall i :: 0 <= i < |threads| ==> Inv(threads[i])
  }

  /** The number of threads in a no-collect region of `r`. */
  ghost function ThreadsInside(threads: seq<Thread>, r: Runtime): int
    requires AllInv(threads)
    decreases |threads|
  {
    if threads == [] then 0
    else Inside(threads[0], r) + ThreadsInside(threads[1..], r)
  }

  lemma {:induction false} InsideUpdate(threads: seq<Thread>, i: nat, s: Thread, r: Runtime)
    requires AllInv(threads) && i < |threads| && Inv(s)
    ensures AllInv(threads[i := s])
    ensures ThreadsInside(threads[i := s], r) == ThreadsInside(threads, r) + Inside(s, r) - Inside(threads[i], r)
    decreases |threads|
  {
    hide Inside;
    if i == 0 {
      assert threads[i := s][1..] == threads[1..];
    } else {
      InsideUpdate(threads[1..], i - 1, s, r);
      assert threads[i := s][1..] == threads[1..][i - 1 := s];
    }
  }

  /** The threads and the count of `r`'s heap. */
  datatype System = System(threads: seq<Thread>, count: int)

  /** A thread's step; the heap's count changes under the heap's lock. */
  datatype Move = Move(tid: nat, e: Event)

  ghost predicate CanMove(sys: System, m: Move) {
    AllInv(sys.threads) && m.tid < |sys.threads| && Happens(sys.threads[m.tid], m.e, 0)
  }

  ghost function Moved(sys: System, m: Move, r: Runtime): System
    requires CanMove(sys, m)
  {
    var s := sys.threads[m.tid];
    System(sys.threads[m.tid := After(s, m.e, 0)], sys.count + CountChange(s, m.e, r))
  }

  /** Any threads move in any order; `leaks` of the moves end a call site in a region it was not opened in. */
  ghost predicate Interleaving(sys: System, moves: seq<Move>, r: Runtime, sys': System, leaks: nat)
    decreases |moves|
  {
    if moves == [] then sys == sys' && leaks == 0
    else
      && CanMove(sys, moves[0])
      && var leak := if Leaks(sys.threads[moves[0].tid], moves[0].e, r) then 1 else 0;
         leak <= leaks && Interleaving(Moved(sys, moves[0], r), moves[1..], r, sys', leaks - leak)
  }

  lemma MoveCounts(sys: System, m: Move, r: Runtime)
    requires CanMove(sys, m)
    ensures var s, sys' := sys.threads[m.tid], Moved(sys, m, r);
            && AllInv(sys'.threads)
            && sys'.count - ThreadsInside(sys'.threads, r) ==
               sys.count - ThreadsInside(sys.threads, r) + if Leaks(s, m.e, r) then 1 else 0
  {
    hide Happens, After, CountChange, Leaks, Inside, ThreadsInside, Inv;
    var s := sys.threads[m.tid];
    CountFollowsLevel(s, m.e, r);
    InsideUpdate(sys.threads, m.tid, After(s, m.e, 0), r);
  }

  lemma FirstMove(sys: System, moves: seq<Move>, r: Runtime, sys': System, leaks: nat) returns (leak: nat)
    requires moves != [] && Interleaving(sys, moves, r, sys', leaks)
    ensures CanMove(sys, moves[0]) && leak <= leaks
    ensures var next := Moved(sys, moves[0], r);
            && AllInv(sys.threads) && AllInv(next.threads)
            && next.count - ThreadsInside(next.threads, r) == sys.count - ThreadsInside(sys.threads, r) + leak
            && Interleaving(next, moves[1..], r, sys', leaks - leak)
  {
    hide Happens, After, Moved, CountChange, Leaks, Inside, ThreadsInside, Inv;
    MoveCounts(sys, moves[0], r);
    leak := if Leaks(sys.threads[moves[0].tid], moves[0].e, r) then 1 else 0;
  }

  lemma NoMoveLeft(sys: System, r: Runtime, sys': System, leaks: nat)
    requires Interleaving(sys, [], r, sys', leaks)
    ensures sys' == sys && leaks == 0
  {
  }

  lemma {:induction false} InterleavingCounts(sys: System, moves: seq<Move>, r: Runtime, sys': System, leaks: nat)
    requires AllInv(sys.threads) && Interleaving(sys, moves, r, sys', leaks)
    ensures AllInv(sys'.threads)
    ensures sys'.count - ThreadsInside(sys'.threads, r) == sys.count - ThreadsInside(sys.threads, r) + leaks
    decreases |moves|
  {
    hide CanMove, Moved, Leaks, ThreadsInside, AllInv, Interleaving, Inv, Happens;
    if moves == [] {
      NoMoveLeft(sys, r, sys', leaks);
    } else {
      var leak := FirstMove(sys, moves, r, sys', leaks);
      InterleavingCounts(Moved(sys, moves[0], r), moves[1..], r, sys', leaks - leak);
    }
  }

  /**
   The count is the number of threads in a region exactly if no call site has ended in a region
   that it was not opened in, whatever the threads did and in whatever order.
   */
  lemma CountIsThreadsInside(sys: System, moves: seq<Move>, r: Runtime, sys': System, leaks: nat)
    requires AllInv(sys.threads) && sys.count == ThreadsInside(sys.threads, r)
    requires Interleaving(sys, moves, r, sys', leaks)
    ensures AllInv(sys'.threads)
    ensures sys'.count == ThreadsInside(sys'.threads, r) <==> leaks == 0
    ensures sys'.count >= leaks
  {
    InterleavingCounts(sys, moves, r, sys', leaks);
    InsideNatural(sys'.threads, r);
  }

  /**
   A collection that is asked for takes place exactly when no thread is in a region and no call
   site has ended in a region that it was not opened in.
   */
  lemma CollectsWithNobodyInside(sys: System, moves: seq<Move>, r: Runtime, sys': System, leaks: nat)
    requires AllInv(sys.threads) && sys.count == ThreadsInside(sys.threads, r)
    requires Interleaving(sys, moves, r, sys', leaks)
    ensures AllInv(sys'.threads)
    ensures Collects(sys'.count) <==> leaks == 0 && forall i :: 0 <= i < |sys'.threads| ==> LevelIn(sys'.threads[i], r) == 0
  {
    hide Interleaving, LevelIn;
    InterleavingCounts(sys, moves, r, sys', leaks);
    NobodyInside(sys'.threads, r);
  }

  lemma {:induction false} NobodyInside(threads: seq<Thread>, r: Runtime)
    requires AllInv(threads)
    ensures ThreadsInside(threads, r) >= 0
    ensures ThreadsInside(threads, r) == 0 <==> forall i :: 0 <= i < |threads| ==> LevelIn(threads[i], r) == 0
    decreases |threads|
  {
    hide LevelIn, Inv;
    if threads != [] {
      NobodyInside(threads[1..], r);
      assert forall i :: 0 <= i < |threads| - 1 ==> threads[1..][i] == threads[i + 1];
      assert threads == [threads[0]] + threads[1..];
    }
  }

  /** A count that is too high stays so: until shutdown resets it, the heap does not collect any more. */
  lemma CollectionStaysBlocked(sys: System, moves: seq<Move>, r: Runtime, sys': System, leaks: nat)
    requires AllInv(sys.threads) && sys.count > ThreadsInside(sys.threads, r)
    requires Interleaving(sys, moves, r, sys', leaks)
    ensures sys'.count > 0 && !Collects(sys'.count)
  {
    InterleavingCounts(sys, moves, r, sys', leaks);
    InsideNatural(sys'.threads, r);
  }

  lemma {:induction false} InsideNatural(threads: seq<Thread>, r: Runtime)
    requires AllInv(threads)
    ensures ThreadsInside(threads, r) >= 0
    decreases |threads|
  {
    if threads != [] {
      InsideNatural(threads[1..], r);
    }
  }

  // ---- a run that leaks --------------------------------------------------------------

  lemma OneMove(s: Thread, count: int, e: Event, r: Runtime, rest: seq<Move>, sys': System, leaks: nat)
    requires Inv(s) && Happens(s, e, 0) && Inv(After(s, e, 0))
    requires Interleaving(System([After(s, e, 0)], count + CountChange(s, e, r)), rest, r, sys', leaks)
    ensures Interleaving(System([s], count), [Move(0, e)] + rest, r, sys', leaks + if Leaks(s, e, r) then 1 else 0)
  {
    hide Inv, Happens, After, CountChange, Leaks;
    var sys, m := System([s], count), Move(0, e);
    assert [s][0 := After(s, e, 0)] == [After(s, e, 0)];
    assert ([m] + rest)[1..] == rest;
  }

  /** A throw out of a no-collect region, which reaches the call site. */
  ghost function ThrownFromRegion(n: Entry): seq<Move> {
    [Move(0, Open(n))] + ([Move(0, Act(RaiseNoCollect))] + ([Move(0, Act(Throw))] + ([Move(0, Close)] + [])))
  }

  /** After it no thread is in the runtime, but the heap counts one in a region. */
  lemma ThrownFromRegionLeaks(n: Entry)
    requires n.storage.runtime == n.runtime
    ensures Inv(Outside())
    ensures Interleaving(System([Outside()], 0), ThrownFromRegion(n), n.runtime, System([Outside()], 1), 1)
  {
    hide Inv, Happens, After, Interleaving, CountChange, Leaks, Apply;
    OpensOuter(n);
    var s0 := Outermost(n);
    var c0, v0 := s0.sites[0], s0.tls[s0.sites[0].tls];
    OneSiteStep(c0, v0, RaiseNoCollect);
    var c1, v1 := ApplySite(c0, v0, RaiseNoCollect), ApplyTls(v0, RaiseNoCollect, c0);
    OneSiteStep(c1, v1, Throw);
    var c2, v2 := ApplySite(c1, v1, Throw), ApplyTls(v1, Throw, c1);
    OneSiteCloses(c2, v2);
    OneSiteCounts(n, c0, v0, c1, v1, c2, v2);
    NoMoves(n.runtime);
    OneMove(OneSite(c2, v2), 1, Close, n.runtime, [], System([Outside()], 1), 0);
    OneMove(OneSite(c1, v1), 1, Act(Throw), n.runtime, [Move(0, Close)] + [], System([Outside()], 1), 1);
    OneMove(s0, 0, Act(RaiseNoCollect), n.runtime, [Move(0, Act(Throw))] + ([Move(0, Close)] + []),
            System([Outside()], 1), 1);
    OneMove(Outside(), 0, Open(n), n.runtime,
            [Move(0, Act(RaiseNoCollect))] + ([Move(0, Act(Throw))] + ([Move(0, Close)] + [])),
            System([Outside()], 1), 1);
  }

  lemma NoMoves(r: Runtime)
    ensures Interleaving(System([Outside()], 1), [], r, System([Outside()], 1), 0)
  {
  }

  lemma OneSiteCloses(c: Site, v: TlsVal)
    requires Inv(OneSite(c, v)) && c.nestLevel == 0 && c.tries == []
    ensures Happens(OneSite(c, v), Close, 0) && After(OneSite(c, v), Close, 0) == Outside()
  {
    EndUnwinds(OneSite(c, v));
  }

  lemma OneSiteCounts(n: Entry, c0: Site, v0: TlsVal, c1: Site, v1: TlsVal, c2: Site, v2: TlsVal)
    requires n.storage.runtime == n.runtime
    requires c0.tls == c1.tls == c2.tls == n.storage
    requires v0.noCollect == 0 && v2.noCollect == 1 && c2.noCollect == 0 && c2.nestLevel == 0
    requires Inv(Outside()) && Happens(Outside(), Open(n), 0)
    requires Inv(OneSite(c0, v0)) && Happens(OneSite(c0, v0), Act(RaiseNoCollect), 0)
    requires Inv(OneSite(c1, v1)) && Happens(OneSite(c1, v1), Act(Throw), 0)
    requires Inv(OneSite(c2, v2)) && Happens(OneSite(c2, v2), Close, 0)
    ensures CountChange(Outside(), Open(n), n.runtime) == 0 && !Leaks(Outside(), Open(n), n.runtime)
    ensures CountChange(OneSite(c0, v0), Act(RaiseNoCollect), n.runtime) == 1
    ensures CountChange(OneSite(c1, v1), Act(Throw), n.runtime) == 0
    ensures !Leaks(OneSite(c0, v0), Act(RaiseNoCollect), n.runtime)
    ensures !Leaks(OneSite(c1, v1), Act(Throw), n.runtime)
    ensures CountChange(OneSite(c2, v2), Close, n.runtime) == 0 && Leaks(OneSite(c2, v2), Close, n.runtime)
  {
    hide Inv, Happens;
  }
}
