/**
 Any number of threads working with the same runtimes: the list of storage and the
 "no threads" event of a runtime are changed one step at a time under its lock.
 */
module CallSiteThreads {
  import opened CallSites

  /** Where a thread is between two visible steps. */
  datatype Pc =
    | Idle
    | WantInsert(entry: Entry)
    | CheckReset(entry: Entry)
    | Insert(entry: Entry)
    | UnlockInsert(entry: Entry)
    | WantRemove(tls: Tls)
    | Remove(tls: Tls)
    | CheckSignal(tls: Tls)
    | UnlockRemove(tls: Tls)

  datatype Worker = Worker(thread: Thread, pc: Pc)

  const NOBODY: int := -1

  /** A runtime's lock, list of storage, and event. */
  datatype RuntimeVal = RuntimeVal(owner: int, list: set<Tls>, event: bool)

  datatype System = System(workers: map<nat, Worker>, runtimes: map<Runtime, RuntimeVal>)

  predicate Opening(pc: Pc) {
    pc.WantInsert? || pc.CheckReset? || pc.Insert? || pc.UnlockInsert?
  }

  /** The storage whose listing is under way. */
  function PendingTls(pc: Pc): Tls
    requires !pc.Idle?
  {
    if Opening(pc) then pc.entry.storage else pc.tls
  }

  /** The runtime whose lock the thread holds or is about to take. */
  function LockOf(pc: Pc): Runtime
    requires !pc.Idle?
  {
    if Opening(pc) then pc.entry.runtime else pc.tls.runtime
  }

  predicate Holding(pc: Pc) {
    !pc.Idle? && !pc.WantInsert? && !pc.WantRemove?
  }

  /** The storage that is on its runtime's list on account of this thread. */
  function Listed(w: Worker): set<Tls> {
    w.thread.tls.Keys +
    if w.pc.UnlockInsert? || w.pc.WantRemove? || w.pc.Remove? then {PendingTls(w.pc)} else {}
  }

  /** The storage that is the thread's own, listed or not. */
  function Owned(w: Worker): set<Tls> {
    w.thread.tls.Keys + if w.pc.Idle? then {} else {PendingTls(w.pc)}
  }

  // ---- steps ---------------------------------------------------------------------

  ghost predicate CanStart(sys: System, tid: nat, e: Event) {
    && tid in sys.workers
    && var w := sys.workers[tid];
       && w.pc.Idle? && Inv(w.thread) && Happens(w.thread, e, 0)
       && (e.Open? ==> e.entry.runtime in sys.runtimes)
       && (e.Open? && FindSite(w.thread.sites, e.entry.runtime) < 0 ==>
             forall j :: j in sys.workers ==> e.entry.storage !in Owned(sys.workers[j]))
  }

  /** A thread's own step; entering or leaving a runtime altogether takes further steps under its lock. */
  ghost function Start(w: Worker, e: Event): Worker
    requires Inv(w.thread) && Happens(w.thread, e, 0)
  {
    if e.Open? && FindSite(w.thread.sites, e.entry.runtime) < 0 then
      w.(pc := WantInsert(e.entry))
    else if e.Close? && Top(w.thread.sites).nestLevel == 0 then
      Worker(After(w.thread, e, 0), WantRemove(Top(w.thread.sites).tls))
    else
      w.(thread := After(w.thread, e, 0))
  }

  ghost predicate CanAdvance(sys: System, tid: nat) {
    && tid in sys.workers
    && var w := sys.workers[tid];
       && !w.pc.Idle? && LockOf(w.pc) in sys.runtimes
       && (!Holding(w.pc) ==> sys.runtimes[LockOf(w.pc)].owner == NOBODY)
       && (w.pc.UnlockInsert? ==> Inv(w.thread) && Happens(w.thread, Open(w.pc.entry), 0))
  }

  ghost function AdvanceWorker(w: Worker): Worker
    requires w.pc.UnlockInsert? ==> Inv(w.thread) && Happens(w.thread, Open(w.pc.entry), 0)
  {
    match w.pc
    case Idle => w
    case WantInsert(n) => w.(pc := CheckReset(n))
    case CheckReset(n) => w.(pc := Insert(n))
    case Insert(n) => w.(pc := UnlockInsert(n))
    case UnlockInsert(n) => Worker(After(w.thread, Open(n), 0), Idle)
    case WantRemove(t) => w.(pc := Remove(t))
    case Remove(t) => w.(pc := CheckSignal(t))
    case CheckSignal(t) => w.(pc := UnlockRemove(t))
    case UnlockRemove(t) => w.(pc := Idle)
  }

  function AdvanceRuntime(v: RuntimeVal, tid: nat, pc: Pc): RuntimeVal {
    match pc
    case Idle => v
    case WantInsert(_) => v.(owner := tid)
    case CheckReset(_) => if v.list == {} then v.(event := false) else v
    case Insert(n) => v.(list := v.list + {n.storage})
    case UnlockInsert(_) => v.(owner := NOBODY)
    case WantRemove(_) => v.(owner := tid)
    case Remove(t) => v.(list := v.list - {t})
    case CheckSignal(_) => if v.list == {} then v.(event := true) else v
    case UnlockRemove(_) => v.(owner := NOBODY)
  }

  ghost function Started(sys: System, tid: nat, e: Event): System
    requires CanStart(sys, tid, e)
  {
    sys.(workers := sys.workers[tid := Start(sys.workers[tid], e)])
  }

  ghost function Advanced(sys: System, tid: nat): System
    requires CanAdvance(sys, tid)
  {
    var w := sys.workers[tid];
    var r := LockOf(w.pc);
    System(sys.workers[tid := AdvanceWorker(w)], sys.runtimes[r := AdvanceRuntime(sys.runtimes[r], tid, w.pc)])
  }

  // ---- invariant -------------------------------------------------------------------

  /** What a thread needs for its pending step. */
  ghost predicate WorkerInv(w: Worker) {
    && Inv(w.thread)
    && (Opening(w.pc) ==> Happens(w.thread, Open(w.pc.entry), 0) && FindSite(w.thread.sites, w.pc.entry.runtime) < 0)
    && (!w.pc.Idle? ==> PendingTls(w.pc) !in w.thread.tls && PendingTls(w.pc).runtime == LockOf(w.pc))
  }

  ghost predicate Workers(sys: System) {
    && (forall tid :: tid in sys.workers ==> WorkerInv(sys.workers[tid]))
    && (forall i, j :: i in sys.workers && j in sys.workers && i != j ==> Owned(sys.workers[i]) !! Owned(sys.workers[j]))
  }

  ghost predicate Holds(w: Worker, r: Runtime) {
    Holding(w.pc) && LockOf(w.pc) == r
  }

  /** The lock is held exactly by the thread between taking and releasing it. */
  ghost predicate LockInv(workers: map<nat, Worker>, r: Runtime, owner: int) {
    && (owner != NOBODY ==> owner >= 0 && owner in workers && Holds(workers[owner], r))
    && (forall tid :: tid in workers && Holds(workers[tid], r) ==> owner == tid)
  }

  /** The event against the list, at each point of the locked section. */
  ghost predicate EventInv(workers: map<nat, Worker>, v: RuntimeVal) {
    if v.owner < 0 || v.owner !in workers then v.event <==> v.list == {}
    else
      match workers[v.owner].pc
      case Insert(_) => !v.event
      case UnlockInsert(_) => !v.event && v.list != {}
      case CheckSignal(_) => !v.event
      case _ => v.event <==> v.list == {}
  }

  /** The list holds the storage of all threads that are in the runtime. */
  ghost predicate ListInv(workers: map<nat, Worker>, r: Runtime, list: set<Tls>) {
    && (forall t :: t in list ==> t.runtime == r && exists tid :: tid in workers && t in Listed(workers[tid]))
    && (forall tid, t :: tid in workers && t in Listed(workers[tid]) && t.runtime == r ==> t in list)
  }

  ghost predicate SystemInv(sys: System) {
    && Workers(sys)
    && forall r :: r in sys.runtimes ==>
         var v := sys.runtimes[r];
         LockInv(sys.workers, r, v.owner) && EventInv(sys.workers, v) && ListInv(sys.workers, r, v.list)
  }

  // ---- a thread's own step -----------------------------------------------------------

  lemma BeginKeys(s: Thread, n: Entry)
    requires Inv(s) && NewIn(s, n.runtime, n.storage, n.frame)
    ensures FindSite(s.sites, n.runtime) >= 0 ==> Begin(s, n.runtime, n.site, n.storage, n.frame).tls.Keys == s.tls.Keys
    ensures FindSite(s.sites, n.runtime) < 0 ==>
              Begin(s, n.runtime, n.site, n.storage, n.frame).tls.Keys == s.tls.Keys + {n.storage}
  {
  }

  lemma EndKeys(s: Thread)
    requires Inv(s) && s.sites != [] && Top(s.sites).tls in s.tls
    ensures Top(s.sites).nestLevel > 0 ==> End(s).tls.Keys == s.tls.Keys
    ensures Top(s.sites).nestLevel == 0 ==> End(s).tls.Keys == s.tls.Keys - {Top(s.sites).tls}
  {
    TopOfApply(s, RestoreFrame);
  }

  ghost predicate OpensOuter(w: Worker, e: Event) {
    e.Open? && FindSite(w.thread.sites, e.entry.runtime) < 0
  }

  lemma StartSets(w: Worker, e: Event)
    requires WorkerInv(w) && w.pc.Idle? && Happens(w.thread, e, 0)
    ensures Listed(Start(w, e)) == Listed(w)
    ensures Owned(Start(w, e)) == Owned(w) + if OpensOuter(w, e) then {e.entry.storage} else {}
  {
    hide Inv, Begin, Apply, End;
    var s := w.thread;
    match e
    case Open(n) => BeginKeys(s, n);
    case Act(op) => TopOfApply(s, op);
    case Close => EndKeys(s);
  }

  lemma StartKeepsWorker(w: Worker, e: Event)
    requires WorkerInv(w) && w.pc.Idle? && Happens(w.thread, e, 0)
    ensures WorkerInv(Start(w, e)) && !Holding(Start(w, e).pc)
  {
    hide Inv, Begin, Apply, Enabled;
    AfterKeepsInv(w.thread, e, 0);
    if e.Close? {
      EndKeys(w.thread);
    }
  }

  lemma StartedKeepsInv(sys: System, tid: nat, e: Event)
    requires SystemInv(sys) && CanStart(sys, tid, e)
    ensures SystemInv(Started(sys, tid, e))
  {
    var w := sys.workers[tid];
    var w' := Start(w, e);
    StartKeepsWorker(w, e);
    StartSets(w, e);
    StartedWorkers(sys, tid, w', if OpensOuter(w, e) then {e.entry.storage} else {});
    hide Inv, Happens, Start, Owned, Listed, WorkerInv, Workers, LockInv, EventInv, ListInv;
    var sys' := Started(sys, tid, e);
    forall r | r in sys'.runtimes
      ensures var v := sys'.runtimes[r];
              LockInv(sys'.workers, r, v.owner) && EventInv(sys'.workers, v) && ListInv(sys'.workers, r, v.list)
    {
      StartedRuntime(sys, tid, w', r);
    }
  }

  lemma StartedWorkers(sys: System, tid: nat, w': Worker, new_: set<Tls>)
    requires Workers(sys) && tid in sys.workers && WorkerInv(w')
    requires Owned(w') <= Owned(sys.workers[tid]) + new_
    requires forall t, j :: t in new_ && j in sys.workers ==> t !in Owned(sys.workers[j])
    ensures Workers(sys.(workers := sys.workers[tid := w']))
  {
    hide WorkerInv, Owned;
  }

  lemma StartedRuntime(sys: System, tid: nat, w': Worker, r: Runtime)
    requires SystemInv(sys) && tid in sys.workers && r in sys.runtimes
    requires !Holding(sys.workers[tid].pc) && !Holding(w'.pc) && Listed(w') == Listed(sys.workers[tid])
    ensures var v, workers := sys.runtimes[r], sys.workers[tid := w'];
            LockInv(workers, r, v.owner) && EventInv(workers, v) && ListInv(workers, r, v.list)
  {
    hide WorkerInv, Listed;
    var v, workers := sys.runtimes[r], sys.workers[tid := w'];
    forall t | t in v.list
      ensures exists i :: i in workers && t in Listed(workers[i])
    {
      var i :| i in sys.workers && t in Listed(sys.workers[i]);
      assert i in workers && t in Listed(workers[i]);
    }
  }

  // ---- a step towards or under the lock --------------------------------------------------

  lemma AdvanceSets(w: Worker)
    requires WorkerInv(w) && !w.pc.Idle?
    ensures Owned(AdvanceWorker(w)) <= Owned(w)
    ensures Listed(AdvanceWorker(w)) ==
              if w.pc.Insert? then Listed(w) + {PendingTls(w.pc)}
              else if w.pc.Remove? then Listed(w) - {PendingTls(w.pc)}
              else Listed(w)
  {
    hide Inv;
    if w.pc.UnlockInsert? {
      BeginKeys(w.thread, w.pc.entry);
    }
  }

  lemma AdvanceKeepsWorker(w: Worker)
    requires WorkerInv(w) && !w.pc.Idle?
    ensures WorkerInv(AdvanceWorker(w))
  {
    hide Inv;
    if w.pc.UnlockInsert? {
      AfterKeepsInv(w.thread, Open(w.pc.entry), 0);
    }
  }

  /** Another runtime does not notice. */
  lemma AdvancedOther(sys: System, tid: nat, w': Worker, r: Runtime)
    requires SystemInv(sys) && tid in sys.workers && r in sys.runtimes
    requires !sys.workers[tid].pc.Idle? && LockOf(sys.workers[tid].pc) != r
    requires !w'.pc.Idle? ==> LockOf(w'.pc) != r
    requires forall t :: t in Listed(w') && t.runtime == r ==> t in Listed(sys.workers[tid])
    requires forall t :: t in Listed(sys.workers[tid]) && t.runtime == r ==> t in Listed(w')
    ensures var v, workers := sys.runtimes[r], sys.workers[tid := w'];
            LockInv(workers, r, v.owner) && EventInv(workers, v) && ListInv(workers, r, v.list)
  {
    hide WorkerInv, Listed;
    var v, workers := sys.runtimes[r], sys.workers[tid := w'];
    forall t | t in v.list
      ensures exists i :: i in workers && t in Listed(workers[i])
    {
      var i :| i in sys.workers && t in Listed(sys.workers[i]);
      assert i in workers && t in Listed(workers[i]);
    }
  }

  lemma AdvanceStays(w: Worker)
    requires WorkerInv(w) && !w.pc.Idle?
    ensures PendingTls(w.pc).runtime == LockOf(w.pc)
    ensures !AdvanceWorker(w).pc.Idle? ==> LockOf(AdvanceWorker(w).pc) == LockOf(w.pc)
  {
  }

  lemma AdvancedOthers(sys: System, tid: nat, r: Runtime)
    requires SystemInv(sys) && CanAdvance(sys, tid) && r in sys.runtimes && r != LockOf(sys.workers[tid].pc)
    ensures var v, sys' := sys.runtimes[r], Advanced(sys, tid);
            LockInv(sys'.workers, r, v.owner) && EventInv(sys'.workers, v) && ListInv(sys'.workers, r, v.list)
  {
    var w := sys.workers[tid];
    assert WorkerInv(w);
    AdvanceSets(w);
    AdvanceStays(w);
    hide SystemInv, AdvanceWorker, Listed, WorkerInv, LockInv, EventInv, ListInv;
    AdvancedOther(sys, tid, AdvanceWorker(w), r);
  }

  /** Its own runtime's lock passes on as it should, and the event follows the list. */
  lemma AdvancedLock(workers: map<nat, Worker>, tid: nat, w': Worker, r: Runtime, v: RuntimeVal, v': RuntimeVal)
    requires tid in workers && WorkerInv(workers[tid]) && !workers[tid].pc.Idle? && LockOf(workers[tid].pc) == r
    requires LockInv(workers, r, v.owner) && EventInv(workers, v)
    requires workers[tid].pc.Remove? ==> v.list != {}
    requires !Holding(workers[tid].pc) ==> v.owner == NOBODY
    requires w' == AdvanceWorker(workers[tid]) && v' == AdvanceRuntime(v, tid, workers[tid].pc)
    ensures LockInv(workers[tid := w'], r, v'.owner) && EventInv(workers[tid := w'], v')
  {
    hide Inv, Happens;
  }

  lemma AdvancedList(workers: map<nat, Worker>, tid: nat, w': Worker, r: Runtime, v: RuntimeVal, v': RuntimeVal)
    requires tid in workers && !workers[tid].pc.Idle? && LockOf(workers[tid].pc) == r
    requires PendingTls(workers[tid].pc).runtime == r
    requires forall j :: j in workers && j != tid ==> PendingTls(workers[tid].pc) !in Listed(workers[j])
    requires ListInv(workers, r, v.list) && v' == AdvanceRuntime(v, tid, workers[tid].pc)
    requires Listed(w') == if workers[tid].pc.Insert? then Listed(workers[tid]) + {PendingTls(workers[tid].pc)}
                           else if workers[tid].pc.Remove? then Listed(workers[tid]) - {PendingTls(workers[tid].pc)}
                           else Listed(workers[tid])
    ensures ListInv(workers[tid := w'], r, v'.list)
  {
    hide Listed;
    var workers' := workers[tid := w'];
    forall t | t in v'.list
      ensures t.runtime == r && exists i :: i in workers' && t in Listed(workers'[i])
    {
      if t in v.list {
        var i :| i in workers && t in Listed(workers[i]);
        assert t in Listed(workers'[i]);
      } else {
        assert t in Listed(workers'[tid]);
      }
    }
  }

  lemma ListedOwned(w: Worker)
    ensures Listed(w) <= Owned(w)
    ensures !w.pc.Idle? ==> PendingTls(w.pc) in Owned(w)
    ensures w.pc.Remove? ==> PendingTls(w.pc) in Listed(w)
  {
  }

  lemma AdvancedSelf(sys: System, tid: nat)
    requires SystemInv(sys) && CanAdvance(sys, tid)
    ensures var r := LockOf(sys.workers[tid].pc);
            var sys' := Advanced(sys, tid);
            && LockInv(sys'.workers, r, sys'.runtimes[r].owner) && EventInv(sys'.workers, sys'.runtimes[r])
            && ListInv(sys'.workers, r, sys'.runtimes[r].list)
  {
    var w := sys.workers[tid];
    var r := LockOf(w.pc);
    var v := sys.runtimes[r];
    var w', v' := AdvanceWorker(w), AdvanceRuntime(v, tid, w.pc);
    assert WorkerInv(w);
    AdvanceSets(w);
    AdvanceStays(w);
    ListedOwned(w);
    forall j | j in sys.workers && j != tid
      ensures PendingTls(w.pc) !in Listed(sys.workers[j])
    {
      ListedOwned(sys.workers[j]);
      assert Owned(sys.workers[j]) !! Owned(w);
    }
    assert w.pc.Remove? ==> v.list != {} by {
      assert w.pc.Remove? ==> PendingTls(w.pc) in v.list;
    }
    hide Inv, Happens, Owned, Listed, WorkerInv, Workers, LockInv, EventInv, ListInv, AdvanceWorker, AdvanceRuntime;
    AdvancedLock(sys.workers, tid, w', r, v, v');
    AdvancedList(sys.workers, tid, w', r, v, v');
  }

  lemma AdvancedWorkers(sys: System, tid: nat)
    requires SystemInv(sys) && CanAdvance(sys, tid)
    ensures Workers(Advanced(sys, tid))
  {
    hide Inv, Happens, AdvanceWorker, AdvanceRuntime, LockInv, EventInv, ListInv, WorkerInv, Owned, Listed;
    var w := sys.workers[tid];
    assert WorkerInv(w);
    AdvanceKeepsWorker(w);
    AdvanceSets(w);
    StartedWorkers(sys, tid, AdvanceWorker(w), {});
    assert Advanced(sys, tid).workers == sys.workers[tid := AdvanceWorker(w)];
  }

  lemma AdvancedKeepsInv(sys: System, tid: nat)
    requires SystemInv(sys) && CanAdvance(sys, tid)
    ensures SystemInv(Advanced(sys, tid))
  {
    hide Workers, LockInv, EventInv, ListInv;
    AdvancedWorkers(sys, tid);
    AdvancedSelf(sys, tid);
    var sys' := Advanced(sys, tid);
    forall r | r in sys'.runtimes && r != LockOf(sys.workers[tid].pc)
      ensures var v := sys'.runtimes[r];
              LockInv(sys'.workers, r, v.owner) && EventInv(sys'.workers, v) && ListInv(sys'.workers, r, v.list)
    {
      AdvancedOthers(sys, tid, r);
    }
  }

  // ---- whole runs ------------------------------------------------------------------------

  datatype Move = StartMove(tid: nat, e: Event) | AdvanceMove(tid: nat)

  ghost predicate CanMove(sys: System, m: Move) {
    match m
    case StartMove(tid, e) => CanStart(sys, tid, e)
    case AdvanceMove(tid) => CanAdvance(sys, tid)
  }

  ghost function Moved(sys: System, m: Move): System
    requires CanMove(sys, m)
  {
    match m
    case StartMove(tid, e) => Started(sys, tid, e)
    case AdvanceMove(tid) => Advanced(sys, tid)
  }

  /** Any threads move in any order. */
  ghost predicate Interleaving(sys: System, moves: seq<Move>, sys': System)
    decreases |moves|
  {
    if moves == [] then sys == sys'
    else CanMove(sys, moves[0]) && Interleaving(Moved(sys, moves[0]), moves[1..], sys')
  }

  /** No thread is in any runtime, and the events are as the runtimes' constructors leave them. */
  ghost predicate Untouched(sys: System) {
    && (forall tid :: tid in sys.workers ==>
          sys.workers[tid].pc.Idle? && sys.workers[tid].thread.sites == [] && sys.workers[tid].thread.tls == map[])
    && (forall r :: r in sys.runtimes ==> sys.runtimes[r] == RuntimeVal(NOBODY, {}, true))
  }

  lemma UntouchedInv(sys: System)
    requires Untouched(sys)
    ensures SystemInv(sys)
  {
  }

  lemma {:induction false} InterleavingKeepsInv(sys: System, moves: seq<Move>, sys': System)
    requires SystemInv(sys) && Interleaving(sys, moves, sys')
    ensures SystemInv(sys')
    decreases |moves|
  {
    if moves != [] {
      match moves[0]
      case StartMove(tid, e) =>
        StartedKeepsInv(sys, tid, e);
        InterleavingKeepsInv(Moved(sys, moves[0]), moves[1..], sys');
      case AdvanceMove(tid) =>
        AdvancedKeepsInv(sys, tid);
        InterleavingKeepsInv(Moved(sys, moves[0]), moves[1..], sys');
    }
  }

  /** Some thread has storage of the runtime on its list. */
  ghost predicate Entered(sys: System, r: Runtime) {
    exists tid :: tid in sys.workers && ListsOf(sys.workers[tid], r) != {}
  }

  ghost function ListsOf(w: Worker, r: Runtime): set<Tls> {
    set t | t in Listed(w) && t.runtime == r
  }

  /**
   After any interleaving, whenever a runtime's lock is free, its event is signalled exactly
   if its list is empty, that is, if no thread is in that runtime.
   */
  lemma EventTellsNobodyInside(sys: System, moves: seq<Move>, sys': System, r: Runtime)
    requires Untouched(sys) && Interleaving(sys, moves, sys')
    requires r in sys'.runtimes && sys'.runtimes[r].owner == NOBODY
    ensures sys'.runtimes[r].event <==> sys'.runtimes[r].list == {}
    ensures sys'.runtimes[r].event <==> !Entered(sys', r)
  {
    UntouchedInv(sys);
    InterleavingKeepsInv(sys, moves, sys');
    var v := sys'.runtimes[r];
    assert ListInv(sys'.workers, r, v.list);
    hide Listed, Workers, LockInv, Interleaving, Untouched;
    if v.list != {} {
      var t :| t in v.list;
      var tid :| tid in sys'.workers && t in Listed(sys'.workers[tid]);
      assert t in ListsOf(sys'.workers[tid], r);
    }
    if Entered(sys', r) {
      var tid :| tid in sys'.workers && ListsOf(sys'.workers[tid], r) != {};
      var t :| t in ListsOf(sys'.workers[tid], r);
      assert t in v.list;
    }
  }

  /** When no thread is underway, being in a runtime is having a call site of it. */
  lemma EnteredIsCallSite(sys: System, r: Runtime)
    requires SystemInv(sys) && forall tid :: tid in sys.workers ==> sys.workers[tid].pc.Idle?
    ensures Entered(sys, r) <==>
            exists tid :: tid in sys.workers && FindSite(sys.workers[tid].thread.sites, r) >= 0
  {
    forall tid | tid in sys.workers
      ensures ListsOf(sys.workers[tid], r) != {} <==> FindSite(sys.workers[tid].thread.sites, r) >= 0
    {
      ListedIsCallSite(sys.workers[tid], r);
    }
  }

  lemma ListedIsCallSite(w: Worker, r: Runtime)
    requires WorkerInv(w) && w.pc.Idle?
    ensures ListsOf(w, r) != {} <==> FindSite(w.thread.sites, r) >= 0
  {
    var s := w.thread;
    if ListsOf(w, r) != {} {
      var t :| t in ListsOf(w, r);
      ChainFound(s.sites, t);
    }
    if FindSite(s.sites, r) >= 0 {
      assert s.sites[FindSite(s.sites, r)].tls in ListsOf(w, r);
    }
  }

  // ---- what each thread does --------------------------------------------------------------

  /** The events started on the thread, in their order. */
  ghost function EventsOf(moves: seq<Move>, tid: nat): seq<Event>
    decreases |moves|
  {
    if moves == [] then []
    else
      (match moves[0]
       case StartMove(i, e) => if i == tid then [e] else []
       case AdvanceMove(_) => []) + EventsOf(moves[1..], tid)
  }

  /** An opening that the thread has started and not come to the end of. */
  ghost function Pending(w: Worker): seq<Event> {
    if Opening(w.pc) then [Open(w.pc.entry)] else []
  }

  /** From `w` to `w'` the thread has run through the events, but for an opening still pending. */
  ghost predicate Runs(w: Worker, es: seq<Event>, w': Worker)
    requires Inv(w.thread)
  {
    var all, n := Pending(w) + es, |Pending(w')|;
    && n <= |all| && all[|all| - n..] == Pending(w')
    && Run(w.thread, all[..|all| - n], w'.thread, 0)
  }

  lemma RunsNone(w: Worker)
    requires Inv(w.thread)
    ensures Runs(w, [], w)
  {
    hide Inv, Pending;
    assert Pending(w) + [] == Pending(w);
    assert Pending(w)[..0] == [];
  }

  /** A step that changes neither the thread nor what is pending, or only moves an event to be pending. */
  lemma RunsSame(w: Worker, w1: Worker, first: seq<Event>, es: seq<Event>, w': Worker)
    requires Inv(w.thread) && w1.thread == w.thread && Pending(w1) == Pending(w) + first && Runs(w1, es, w')
    ensures Runs(w, first + es, w')
  {
    hide Inv, Run, Pending;
    assert Pending(w) + (first + es) == Pending(w1) + es;
  }

  /** A step by which the thread gets through its first event. */
  lemma RunsFirst(w: Worker, e: Event, w1: Worker, es: seq<Event>, w': Worker, rest: seq<Event>)
    requires Inv(w.thread) && Happens(w.thread, e, 0) && Inv(w1.thread) && w1.thread == After(w.thread, e, 0)
    requires Pending(w1) == [] && Runs(w1, es, w') && Pending(w) + rest == [e] + es
    ensures Runs(w, rest, w')
  {
    hide Inv, Happens, After, Pending, Run;
    var n := |Pending(w')|;
    assert Pending(w1) + es == es;
    FirstAhead(e, es, n);
    RunMore(w.thread, e, es[..|es| - n], w'.thread, 0);
  }

  lemma FirstAhead(e: Event, es: seq<Event>, n: nat)
    requires n <= |es|
    ensures ([e] + es)[|[e] + es| - n..] == es[|es| - n..]
    ensures ([e] + es)[..|[e] + es| - n] == [e] + es[..|es| - n]
  {
  }

  lemma StartRuns(w: Worker, e: Event, es: seq<Event>, w': Worker)
    requires WorkerInv(w) && w.pc.Idle? && Happens(w.thread, e, 0) && WorkerInv(Start(w, e))
    requires Runs(Start(w, e), es, w')
    ensures Runs(w, [e] + es, w')
  {
    hide Inv, Happens, After, Runs;
    if OpensOuter(w, e) {
      RunsSame(w, Start(w, e), [e], es, w');
    } else {
      RunsFirst(w, e, Start(w, e), es, w', [e] + es);
    }
  }

  lemma AdvanceRuns(w: Worker, es: seq<Event>, w': Worker)
    requires WorkerInv(w) && !w.pc.Idle? && WorkerInv(AdvanceWorker(w)) && Runs(AdvanceWorker(w), es, w')
    ensures Runs(w, es, w')
  {
    hide Inv, Happens, After, Runs;
    if w.pc.UnlockInsert? {
      RunsFirst(w, Open(w.pc.entry), AdvanceWorker(w), es, w', es);
    } else {
      RunsSame(w, AdvanceWorker(w), [], es, w');
      assert [] + es == es;
    }
  }

  lemma WorkerOf(sys: System, tid: nat)
    requires SystemInv(sys) && tid in sys.workers
    ensures WorkerInv(sys.workers[tid]) && Inv(sys.workers[tid].thread)
  {
  }

  lemma MovedKeepsInv(sys: System, m: Move)
    requires SystemInv(sys) && CanMove(sys, m)
    ensures SystemInv(Moved(sys, m)) && Moved(sys, m).workers.Keys == sys.workers.Keys
  {
    hide SystemInv;
    match m
    case StartMove(tid, e) => StartedKeepsInv(sys, tid, e);
    case AdvanceMove(tid) => AdvancedKeepsInv(sys, tid);
  }

  lemma MoveRuns(sys: System, m: Move, tid: nat, es: seq<Event>, w': Worker)
    requires SystemInv(sys) && CanMove(sys, m) && tid in sys.workers
    requires SystemInv(Moved(sys, m)) && tid in Moved(sys, m).workers && Inv(Moved(sys, m).workers[tid].thread)
    requires Inv(sys.workers[tid].thread) && Runs(Moved(sys, m).workers[tid], es, w')
    ensures Runs(sys.workers[tid], EventsOf([m], tid) + es, w')
  {
    hide SystemInv, WorkerInv, Inv, Happens, Runs, AdvanceWorker, Start;
    WorkerOf(sys, tid);
    WorkerOf(Moved(sys, m), tid);
    var w := sys.workers[tid];
    match m
    case StartMove(i, e) =>
      if i == tid {
        StartRuns(w, e, es, w');
        assert EventsOf([m], tid) == [e];
      } else {
        assert EventsOf([m], tid) + es == es;
      }
    case AdvanceMove(i) =>
      assert EventsOf([m], tid) + es == es;
      if i == tid {
        AdvanceRuns(w, es, w');
      }
  }

  /**
   In any interleaving each thread runs through exactly the events started on it, in their order,
   as if it were alone, but for an opening it still waits to complete.
   */
  lemma {:induction false} WorkerRuns(sys: System, moves: seq<Move>, sys': System, tid: nat)
    requires SystemInv(sys) && Interleaving(sys, moves, sys') && tid in sys.workers
    ensures tid in sys'.workers && Inv(sys.workers[tid].thread)
    ensures Runs(sys.workers[tid], EventsOf(moves, tid), sys'.workers[tid])
    decreases |moves|
  {
    hide SystemInv, CanMove, Moved, Runs, Inv;
    WorkerOf(sys, tid);
    if moves == [] {
      RunsNone(sys.workers[tid]);
    } else {
      var m := moves[0];
      MovedKeepsInv(sys, m);
      WorkerOf(Moved(sys, m), tid);
      WorkerRuns(Moved(sys, m), moves[1..], sys', tid);
      MoveRuns(sys, m, tid, EventsOf(moves[1..], tid), sys'.workers[tid]);
      FirstEvents(moves, tid);
    }
  }

  lemma FirstEvents(moves: seq<Move>, tid: nat)
    requires moves != []
    ensures EventsOf(moves, tid) == EventsOf([moves[0]], tid) + EventsOf(moves[1..], tid)
  {
    assert [moves[0]][1..] == [];
  }

  /** Between two points at which it is idle, the thread has run through just these events. */
  lemma IdleWorkerRuns(sys: System, moves: seq<Move>, sys': System, tid: nat)
    requires SystemInv(sys) && Interleaving(sys, moves, sys') && tid in sys.workers && sys.workers[tid].pc.Idle?
    ensures tid in sys'.workers && Inv(sys.workers[tid].thread)
    ensures sys'.workers[tid].pc.Idle? ==>
              Run(sys.workers[tid].thread, EventsOf(moves, tid), sys'.workers[tid].thread, 0)
  {
    hide SystemInv, Inv, Interleaving, Run;
    WorkerRuns(sys, moves, sys', tid);
    var es := EventsOf(moves, tid);
    assert [] + es == es && es[..|es|] == es;
  }
}
