/**
 What a run leaves behind of a try scope that catches a throw, and what a call site knows at
 its end of the throws in its body.
 */
module CallSiteRuns {
  import opened CallSites

  // ---- a try scope over a run ------------------------------------------------------------

  /** The `n + 1`-th try scope of call site `d - 1` is open. */
  ghost predicate TryOpen(s: Thread, d: nat, n: nat) {
    0 < d <= |s.sites| && |s.sites[d - 1].tries| > n
  }

  /** A run during which that try scope stays open. */
  ghost predicate RunInTry(s: Thread, es: seq<Event>, s': Thread, d: nat, n: nat)
    requires Inv(s)
    decreases |es|
  {
    && TryOpen(s, d, n)
    && if es == [] then s == s'
       else
         && Happens(s, es[0], 0)
         && (AfterKeepsInv(s, es[0], 0); RunInTry(After(s, es[0], 0), es[1..], s', d, n))
  }

  /** The call sites below and what call site `d - 1` had of try scopes and local variables are still there. */
  ghost predicate SameBelow(s: Thread, s': Thread, d: nat, n: nat) {
    && TryOpen(s, d, n) && TryOpen(s', d, n)
    && s'.sites[..d - 1] == s.sites[..d - 1]
    && s'.sites[d - 1].tries[..n + 1] == s.sites[d - 1].tries[..n + 1]
    && s'.sites[d - 1].(tries := []) == s.sites[d - 1].(tries := [])
  }

  lemma ActsInTop(s: Thread, op: Op, d: nat, n: nat)
    requires TryOpen(s, d, n) && Top(s.sites).tls in s.tls && Enabled(s, op)
    requires TryOpen(Apply(s, op), d, n)
    ensures SameBelow(s, Apply(s, op), d, n)
  {
    var s' := Apply(s, op);
    ApplyIs(s, op);
    assert forall i :: 0 <= i < |s.sites| - 1 ==> s'.sites[i] == Below(s'.sites)[i] == Below(s.sites)[i] == s.sites[i];
    if |s.sites| == d {
      assert s.sites[d - 1] == Top(s.sites) && s'.sites[d - 1] == Top(s'.sites);
      TopKeepsTries(Top(s.sites), s.tls[Top(s.sites).tls], op, n);
    }
  }

  lemma TopKeepsTries(c: Site, v: TlsVal, op: Op, n: nat)
    requires |c.tries| > n && |ApplySite(c, v, op).tries| > n && !op.Throw? && !op.RestoreFrame?
    ensures ApplySite(c, v, op).tries[..n + 1] == c.tries[..n + 1]
    ensures ApplySite(c, v, op).(tries := []) == c.(tries := [])
  {
  }

  lemma OpensAbove(s: Thread, n: Entry, d: nat, k: nat)
    requires Inv(s) && Happens(s, Open(n), 0) && TryOpen(s, d, k)
    ensures SameBelow(s, After(s, Open(n), 0), d, k)
  {
    SharedStored(s);
    OpenAppends(s, n);
    hide Inv, Happens, After;
  }

  lemma OpenAppends(s: Thread, n: Entry)
    requires Inv(s) && Happens(s, Open(n), 0)
    ensures var s' := After(s, Open(n), 0); s'.sites != [] && Below(s'.sites) == s.sites
  {
    hide Inv, Nest;
  }

  lemma ClosesAbove(s: Thread, d: nat, k: nat)
    requires Inv(s) && Happens(s, Close, 0) && TryOpen(s, d, k) && TryOpen(After(s, Close, 0), d, k)
    ensures SameBelow(s, After(s, Close, 0), d, k)
  {
    CloseDrops(s);
    hide Inv, Happens, After;
  }

  lemma CloseDrops(s: Thread)
    requires Inv(s) && Happens(s, Close, 0)
    ensures After(s, Close, 0).sites == Below(s.sites)
  {
    EndUnwinds(s);
  }

  lemma StepKeepsBelow(s: Thread, e: Event, d: nat, n: nat)
    requires Inv(s) && Happens(s, e, 0) && TryOpen(s, d, n) && TryOpen(After(s, e, 0), d, n)
    ensures SameBelow(s, After(s, e, 0), d, n)
  {
    hide Inv, TryOpen, SameBelow, Enabled, Apply, Begin, End;
    match e
    case Open(entry) => OpensAbove(s, entry, d, n);
    case Act(op) => ActsInTop(s, op, d, n);
    case Close => ClosesAbove(s, d, n);
  }

  lemma SameBelowTwice(s: Thread, s': Thread, s'': Thread, d: nat, n: nat)
    requires SameBelow(s, s', d, n) && SameBelow(s', s'', d, n)
    ensures SameBelow(s, s'', d, n)
  {
  }

  lemma EndsInTry(s: Thread, es: seq<Event>, s': Thread, d: nat, n: nat)
    requires Inv(s) && RunInTry(s, es, s', d, n)
    ensures TryOpen(s, d, n)
  {
  }

  lemma {:induction false} RunKeepsBelow(s: Thread, es: seq<Event>, s': Thread, d: nat, n: nat)
    requires Inv(s) && RunInTry(s, es, s', d, n)
    ensures SameBelow(s, s', d, n) && Run(s, es, s', d - 1)
    decreases |es|
  {
    if es != [] {
      hide Inv, TryOpen, SameBelow, Happens, After;
      var next := After(s, es[0], 0);
      AfterKeepsInv(s, es[0], 0);
      EndsInTry(next, es[1..], s', d, n);
      StepKeepsBelow(s, es[0], d, n);
      RunKeepsBelow(next, es[1..], s', d, n);
      SameBelowTwice(s, next, s', d, n);
      HappensAbove(s, es[0], d, n);
    }
  }

  lemma HappensAbove(s: Thread, e: Event, d: nat, n: nat)
    requires Inv(s) && Happens(s, e, 0) && TryOpen(s, d, n)
    ensures Happens(s, e, d - 1) && After(s, e, d - 1) == After(s, e, 0)
  {
    hide Inv, Enabled, NewIn, Apply, Begin, End;
  }

  /** With `d` call sites before and after a run, all storage but the innermost one's is unchanged. */
  lemma SameStorage(s: Thread, s': Thread, d: nat)
    requires Inv(s) && Inv(s') && |s.sites| == |s'.sites| == d > 0
    requires UnwindTo(s', d - 1) == UnwindTo(s, d - 1)
    requires s'.sites[d - 1].tls == s.sites[d - 1].tls && s'.sites[d - 1].nestLevel == s.sites[d - 1].nestLevel
    ensures var t := s.sites[d - 1].tls;
            t in s.tls && t in s'.tls && s'.tls == s.tls[t := s'.tls[t]] && s'.external == s.external
  {
    UnwindOne(s, d);
    UnwindOne(s', d);
    hide Inv, UnwindTo;
    var t := s.sites[d - 1].tls;
    assert Top(s.sites) == s.sites[d - 1] && Top(s'.sites) == s'.sites[d - 1];
    forall u | u != t ensures u in s.tls <==> u in s'.tls {
      assert u in Unwind(s).tls <==> u in Unwind(s').tls;
    }
    forall u | u in s.tls && u != t ensures s'.tls[u] == s.tls[u] {
      assert Unwind(s).tls[u] == Unwind(s').tls[u];
    }
  }

  lemma UnwindOne(s: Thread, d: nat)
    requires Inv(s) && |s.sites| == d > 0
    ensures Top(s.sites).tls in s.tls && UnwindTo(s, d - 1) == Unwind(s)
  {
    UnwindShared(s);
  }

  /** The thread with a try scope opened in its innermost call site. */
  ghost function TryOpened(s: Thread, frame: SjljFrame): Thread
    requires Inv(s) && Happens(s, Act(OpenTry(frame)), 0)
  {
    After(s, Act(OpenTry(frame)), 0)
  }

  /** What is the same again when the scope is left, however that happens. */
  lemma TryScopeUndone(s: Thread, frame: SjljFrame, es: seq<Event>, s2: Thread, op: Op)
    requires Inv(s) && Happens(s, Act(OpenTry(frame)), 0)
    requires var d, n := |s.sites|, |Top(s.sites).tries|;
             && Inv(TryOpened(s, frame)) && RunInTry(TryOpened(s, frame), es, s2, d, n)
             && Inv(s2) && |s2.sites| == d && |Top(s2.sites).tries| == n + 1
    requires (op.Catch? || op.CloseTry?) && Happens(s2, Act(op), 0)
    ensures var s3, t := After(s2, Act(op), 0), Top(s.sites).tls;
            && s3.sites == s.sites && s3.external == s.external && t in s.tls && t in s2.tls && t in s3.tls
            && s3.tls == s.tls[t := s3.tls[t]]
            && s3.tls[t].sjlj == s.tls[t].sjlj
            && s3.tls[t].shadow == (if op.Catch? then s.tls[t].shadow else s2.tls[t].shadow)
  {
    hide Inv, Enabled, RunInTry, UnwindTo, Run, Apply;
    var d, n, s1 := |s.sites|, |Top(s.sites).tries|, TryOpened(s, frame);
    RunKeepsBelow(s1, es, s2, d, n);
    ApplyIs(s, OpenTry(frame));
    ApplyIs(s2, op);
    SitesEnd(s);
    SitesEnd(s1);
    SitesEnd(s2);
    SitesEnd(After(s2, Act(op), 0));
    RunUnwinds(s1, es, s2, d - 1);
    SameStorage(s1, s2, d);
    LeftAsOpened(Top(s.sites), s.tls[Top(s.sites).tls], frame, Top(s2.sites), s2.tls[Top(s2.sites).tls], op);
  }

  lemma SitesEnd(s: Thread)
    requires s.sites != []
    ensures s.sites == Below(s.sites) + [Top(s.sites)]
    ensures Below(s.sites) == s.sites[..|s.sites| - 1] && Top(s.sites) == s.sites[|s.sites| - 1]
  {
  }

  lemma LeftAsOpened(c: Site, v: TlsVal, frame: SjljFrame, c2: Site, v2: TlsVal, op: Op)
    requires op.Catch? || op.CloseTry?
    requires var c1 := ApplySite(c, v, OpenTry(frame));
             |c2.tries| == |c1.tries| && c2.tries[..|c2.tries|] == c1.tries[..|c1.tries|] && c2.(tries := []) == c1.(tries := [])
    ensures ApplySite(c2, v2, op) == c
    ensures ApplyTls(v2, op, c2).sjlj == v.sjlj
    ensures ApplyTls(v2, op, c2).shadow == if op.Catch? then v.shadow else v2.shadow
  {
    assert c2.tries == c2.tries[..|c2.tries|] == c.tries + [TryFrame(frame, v.sjlj, v.shadow)];
    assert OtherTries(c2.tries) == c.tries;
  }

  // ---- throws over a run -------------------------------------------------------------------

  function DepthChange(e: Event): int {
    match e
    case Open(_) => 1
    case Act(_) => 0
    case Close => -1
  }

  /** The call sites opened by the events, less those ended. */
  ghost function DepthOf(es: seq<Event>): int
    decreases |es|
  {
    if es == [] then 0 else DepthChange(es[0]) + DepthOf(es[1..])
  }

  /** One of the events is the step `op` in call site `d - 1`, there being `k` call sites at the start. */
  ghost predicate HappensIn(es: seq<Event>, k: int, d: int, op: Op) {
    exists i :: 0 <= i < |es| && es[i] == Act(op) && k + DepthOf(es[..i]) == d
  }

  lemma HappensInNext(es: seq<Event>, k: int, d: int, op: Op)
    requires es != []
    ensures HappensIn(es, k, d, op) <==>
            (es[0] == Act(op) && k == d) || HappensIn(es[1..], k + DepthChange(es[0]), d, op)
  {
    forall i | 0 < i < |es| ensures DepthOf(es[..i]) == DepthChange(es[0]) + DepthOf(es[1..][..i - 1]) {
      assert es[..i][1..] == es[1..][..i - 1];
    }
    if i :| 0 <= i < |es| && es[i] == Act(op) && k + DepthOf(es[..i]) == d && i > 0 {
      assert es[1..][i - 1] == Act(op);
    }
    if i :| 0 <= i < |es| - 1 && es[1..][i] == Act(op) && k + DepthChange(es[0]) + DepthOf(es[1..][..i]) == d {
      assert es[i + 1] == Act(op) && es[1..][..i + 1 - 1] == es[1..][..i];
    }
  }

  lemma ActsOnTop(s: Thread, op: Op)
    requires s.sites != [] && Top(s.sites).tls in s.tls
    ensures var s' := Apply(s, op);
            && |s'.sites| == |s.sites| && (forall i :: 0 <= i < |s.sites| - 1 ==> s'.sites[i] == s.sites[i])
            && s'.sites[|s.sites| - 1].thrown == (s.sites[|s.sites| - 1].thrown || op.Throw?)
            && s'.sites[|s.sites| - 1].restored == (s.sites[|s.sites| - 1].restored || op.RestoreFrame?)
  {
    ApplyIs(s, op);
    SitesEnd(s);
    SitesEnd(Apply(s, op));
    hide Apply, ApplyTls;
  }

  /** A step leaves the flags of a call site alone, unless it throws to it or restores its frame. */
  lemma StepFlags(s: Thread, e: Event, d: nat)
    requires 0 < d <= |s.sites| && Inv(s) && Happens(s, e, d - 1)
    ensures var s' := After(s, e, d - 1);
            && |s'.sites| == |s.sites| + DepthChange(e)
            && (d <= |s'.sites| ==>
                  && s'.sites[d - 1].thrown == (s.sites[d - 1].thrown || (e == Act(Throw) && |s.sites| == d))
                  && s'.sites[d - 1].restored == (s.sites[d - 1].restored || (e == Act(RestoreFrame) && |s.sites| == d)))
  {
    hide Inv, Enabled, Apply, Begin, End, NewIn;
    match e
    case Open(n) => OpenAbove(s, n);
    case Act(op) => ActsOnTop(s, op);
    case Close => CloseAbove(s);
  }

  lemma OpenAbove(s: Thread, n: Entry)
    requires Inv(s) && NewIn(s, n.runtime, n.storage, n.frame)
    ensures var s' := Begin(s, n.runtime, n.site, n.storage, n.frame);
            |s'.sites| == |s.sites| + 1 && forall i :: 0 <= i < |s.sites| ==> s'.sites[i] == s.sites[i]
  {
    hide Nest, NewIn;
  }

  lemma CloseAbove(s: Thread)
    requires Inv(s) && s.sites != [] && Top(s.sites).tls in s.tls && Top(s.sites).tries == []
    ensures |End(s).sites| == |s.sites| - 1 && forall i :: 0 <= i < |s.sites| - 1 ==> End(s).sites[i] == s.sites[i]
  {
    EndUnwinds(s);
    hide Inv, End;
  }

  /**
   What a call site knows at its end: it has been thrown to, or has restored its frame, exactly if
   one of the events was a throw, or a restore, while it was the innermost one.
   */
  lemma {:induction false} FlagsTellThrows(s: Thread, es: seq<Event>, s': Thread, d: nat)
    requires Inv(s) && 0 < d <= |s.sites| && Run(s, es, s', d - 1)
    requires forall i :: 0 <= i <= |es| ==> |s.sites| + DepthOf(es[..i]) >= d
    ensures |s'.sites| == |s.sites| + DepthOf(es) >= d
    ensures s'.sites[d - 1].thrown <==> s.sites[d - 1].thrown || HappensIn(es, |s.sites|, d, Throw)
    ensures s'.sites[d - 1].restored <==> s.sites[d - 1].restored || HappensIn(es, |s.sites|, d, RestoreFrame)
    decreases |es|
  {
    hide Inv, Happens, After, HappensIn;
    assert es[..|es|] == es;
    if es == [] {
      NothingHappensIn(|s.sites|, d, Throw);
      NothingHappensIn(|s.sites|, d, RestoreFrame);
    } else {
      StepFlags(s, es[0], d);
      AfterKeepsInv(s, es[0], d - 1);
      var next := After(s, es[0], d - 1);
      forall i | 0 <= i <= |es[1..]| ensures DepthOf(es[..i + 1]) == DepthChange(es[0]) + DepthOf(es[1..][..i]) {
        assert es[..i + 1][1..] == es[1..][..i];
      }
      assert es[1..][..0] == [];
      assert |s.sites| + DepthOf(es[..1]) >= d;
      FlagsTellThrows(next, es[1..], s', d);
      HappensInNext(es, |s.sites|, d, Throw);
      HappensInNext(es, |s.sites|, d, RestoreFrame);
    }
  }

  lemma NothingHappensIn(k: int, d: int, op: Op)
    ensures !HappensIn([], k, d, op)
  {
  }

  // ---- a call site and its nested ones -------------------------------------------------------

  /** Of the events those that are steps in call site `d - 1`, there being `k` call sites at the start. */
  ghost function OwnActs(es: seq<Event>, k: int, d: int): seq<Event>
    decreases |es|
  {
    if es == [] then []
    else (if es[0].Act? && k == d then [es[0]] else []) + OwnActs(es[1..], k + DepthChange(es[0]), d)
  }

  lemma InvShared(s: Thread)
    requires Inv(s)
    ensures Shared(s) && Nested(s.sites)
  {
  }

  lemma NothingToUnwind(s: Thread, d: nat)
    requires Inv(s) && |s.sites| <= d
    ensures UnwindTo(s, d) == s
  {
  }

  lemma HappensMoreAbove(s: Thread, e: Event, d: nat)
    requires 0 < d && Inv(s) && Happens(s, e, d - 1) && (e.Open? || |s.sites| > d)
    ensures Happens(s, e, d) && After(s, e, d) == After(s, e, d - 1)
  {
    hide Inv, Enabled, NewIn, Apply, Begin, End;
  }

  lemma DepthAfter(s: Thread, e: Event, d: nat)
    requires 0 < d <= |s.sites| && Inv(s) && Happens(s, e, d - 1)
    ensures |After(s, e, d - 1).sites| == |s.sites| + DepthChange(e)
  {
    hide Inv, Happens, After;
    StepFlags(s, e, d);
  }

  /** A step above call site `d - 1` is not seen by it; a step in it is a step of its own. */
  lemma OwnStep(s: Thread, e: Event, rest: seq<Event>, s': Thread, d: nat)
    requires 0 < d <= |s.sites| && Inv(s) && Happens(s, e, d - 1)
    requires |After(s, e, d - 1).sites| >= d && Inv(After(s, e, d - 1))
    requires Shared(After(s, e, d - 1)) && Nested(After(s, e, d - 1).sites) && Shared(s) && Nested(s.sites)
    requires Inv(UnwindTo(After(s, e, d - 1), d)) && Run(UnwindTo(After(s, e, d - 1), d), rest, s', d - 1)
    ensures Inv(UnwindTo(s, d))
    ensures Run(UnwindTo(s, d), (if e.Act? && |s.sites| == d then [e] else []) + rest, s', d - 1)
  {
    hide Inv, Happens, After, Run, UnwindTo, Shared, Nested;
    DepthAfter(s, e, d);
    if e.Act? && |s.sites| == d {
      NothingToUnwind(s, d);
      NothingToUnwind(After(s, e, d - 1), d);
      RunMore(s, e, rest, s', d - 1);
    } else {
      HappensMoreAbove(s, e, d);
      AfterUnwinds(s, e, d);
      assert [] + rest == rest;
    }
  }

  lemma UnwindAccounted(s: Thread)
    requires Shared(s) && AllAccounted(s) && s.sites != [] && Top(s.sites).tls in s.tls
    ensures AllAccounted(Unwind(s))
  {
    var c := Top(s.sites);
    assert Accounted(s.sites, c.tls, s.tls[c.tls]);
    forall t | t in Unwind(s).tls
      ensures Accounted(Unwind(s).sites, t, Unwind(s).tls[t])
    {
      assert Accounted(s.sites, t, s.tls[t]);
    }
  }

  lemma UnwindAlternates(s: Thread)
    requires AllAlternate(s) && s.sites != [] && Top(s.sites).tls in s.tls
    ensures AllAlternate(Unwind(s))
  {
    UninitAlternates(s);
  }

  lemma UnwindInv(s: Thread)
    requires Inv(s) && s.sites != [] && Top(s.sites).tls in s.tls
    ensures Inv(Unwind(s))
  {
    hide Shared, Nested, AllAccounted, AllAlternate, FramesOf, OwnFramesDistinct;
    UnwindShared(s);
    UnwindAccounted(s);
    UnwindAlternates(s);
  }

  lemma {:induction false} UnwindKeepsInv(s: Thread, d: nat)
    requires Inv(s)
    ensures Inv(UnwindTo(s, d))
    decreases |s.sites|
  {
    hide Inv;
    if |s.sites| > d {
      UnwindOne(s, |s.sites|);
      UnwindInv(s);
      UnwindKeepsInv(Unwind(s), d);
    }
  }

  /**
   Nested call sites, of whatever runtimes, are not seen by the one below: once they are ended, its
   thread is as its own steps alone make it.
   */
  lemma {:induction false} NestedIsNotSeen(s: Thread, es: seq<Event>, s': Thread, d: nat)
    requires 0 < d <= |s.sites| && Inv(s) && Run(s, es, s', d - 1)
    requires forall i :: 0 <= i <= |es| ==> |s.sites| + DepthOf(es[..i]) >= d
    ensures Inv(s') && Inv(UnwindTo(s, d))
    ensures Run(UnwindTo(s, d), OwnActs(es, |s.sites|, d), UnwindTo(s', d), d - 1)
    decreases |es|
  {
    hide Inv, Happens, After, UnwindTo, Shared, Nested;
    UnwindKeepsInv(s, d);
    InvShared(s);
    if es == [] {
      RunNone(UnwindTo(s, d), d - 1);
    } else {
      DepthAfter(s, es[0], d);
      AfterKeepsInv(s, es[0], d - 1);
      var next := After(s, es[0], d - 1);
      forall i | 0 <= i <= |es[1..]| ensures DepthOf(es[..i + 1]) == DepthChange(es[0]) + DepthOf(es[1..][..i]) {
        assert es[..i + 1][1..] == es[1..][..i];
      }
      assert es[1..][..0] == [];
      assert |s.sites| + DepthOf(es[..1]) >= d;
      InvShared(next);
      NestedIsNotSeen(next, es[1..], s', d);
      InvShared(s');
      OwnStep(s, es[0], OwnActs(es[1..], |next.sites|, d), UnwindTo(s', d), d);
    }
  }

  // ---- what its own steps amount to -----------------------------------------------------------

  /** The steps `up` less the steps `down`. */
  ghost function NetOf(es: seq<Event>, up: Op, down: Op): int
    decreases |es|
  {
    if es == [] then 0
    else (if es[0] == Act(up) then 1 else if es[0] == Act(down) then -1 else 0) + NetOf(es[1..], up, down)
  }

  /** The frames pushed less the frames popped. */
  ghost function NetFrames(es: seq<Event>): int
    decreases |es|
  {
    if es == [] then 0
    else
      (if es[0].Act? && es[0].op.PushFrame? then 1 else if es[0] == Act(PopFrame) then -1 else 0) + NetFrames(es[1..])
  }

  lemma NetOfOne(op: Op, up: Op, down: Op)
    ensures NetOf([Act(op)], up, down) == if op == up then 1 else if op == down then -1 else 0
    ensures NetFrames([Act(op)]) == if op.PushFrame? then 1 else if op.PopFrame? then -1 else 0
  {
    assert [Act(op)][1..] == [];
  }

  lemma OpLevels(c: Site, v: TlsVal, op: Op)
    requires op.PopFrame? ==> v.shadow != NoFrame
    requires (op.LowerNoCollect? ==> v.noCollect > 0) && (op.LeaveWait? ==> v.wait > 0)
    ensures var v' := ApplyTls(v, op, c);
            && v'.noCollect == v.noCollect + (if op.RaiseNoCollect? then 1 else if op.LowerNoCollect? then -1 else 0)
            && v'.wait == v.wait + (if op.EnterWait? then 1 else if op.LeaveWait? then -1 else 0)
            && (!op.Catch? ==>
                  Depth(v'.shadow) == Depth(v.shadow) + if op.PushFrame? then 1 else if op.PopFrame? then -1 else 0)
  {
  }

  lemma EnabledLevels(s: Thread, op: Op)
    requires s.sites != [] && Top(s.sites).tls in s.tls && Enabled(s, op)
    ensures var v := s.tls[Top(s.sites).tls];
            && (op.PopFrame? ==> v.shadow != NoFrame)
            && (op.LowerNoCollect? ==> v.noCollect > 0) && (op.LeaveWait? ==> v.wait > 0)
  {
  }

  lemma ActLevels(s: Thread, op: Op)
    requires s.sites != [] && Top(s.sites).tls in s.tls && Enabled(s, op)
    ensures var s', t := Apply(s, op), Top(s.sites).tls;
            && |s'.sites| == |s.sites| && Top(s'.sites).tls == t && t in s'.tls
            && s'.tls[t].noCollect == s.tls[t].noCollect + NetOf([Act(op)], RaiseNoCollect, LowerNoCollect)
            && s'.tls[t].wait == s.tls[t].wait + NetOf([Act(op)], EnterWait, LeaveWait)
            && (!op.Catch? ==> Depth(s'.tls[t].shadow) == Depth(s.tls[t].shadow) + NetFrames([Act(op)]))
  {
    hide Enabled, Apply, ApplyTls, NetOf, NetFrames, Depth;
    var c := Top(s.sites);
    ApplyIs(s, op);
    TopOfApply(s, op);
    ActsOnTop(s, op);
    EnabledLevels(s, op);
    OpLevels(c, s.tls[c.tls], op);
    NetOfOne(op, RaiseNoCollect, LowerNoCollect);
    NetOfOne(op, EnterWait, LeaveWait);
  }

  lemma NetNext(es: seq<Event>, up: Op, down: Op)
    requires es != []
    ensures NetOf(es, up, down) == NetOf([es[0]], up, down) + NetOf(es[1..], up, down)
    ensures NetFrames(es) == NetFrames([es[0]]) + NetFrames(es[1..])
  {
    assert [es[0]][1..] == [];
  }

  /** By its own steps the levels of a call site's storage change by what is raised and lowered, a caught throw included. */
  lemma {:induction false} LevelsAreNet(s: Thread, es: seq<Event>, s': Thread, d: nat)
    requires 0 < d == |s.sites| && Inv(s) && Top(s.sites).tls in s.tls && Run(s, es, s', d - 1)
    requires forall i :: 0 <= i < |es| ==> es[i].Act?
    ensures var t := Top(s.sites).tls;
            && |s'.sites| == d && Top(s'.sites).tls == t && t in s'.tls
            && s'.tls[t].noCollect == s.tls[t].noCollect + NetOf(es, RaiseNoCollect, LowerNoCollect)
            && s'.tls[t].wait == s.tls[t].wait + NetOf(es, EnterWait, LeaveWait)
            && (Act(Catch) !in es ==> Depth(s'.tls[t].shadow) == Depth(s.tls[t].shadow) + NetFrames(es))
    decreases |es|
  {
    hide Inv, Happens, After, Run, Enabled, Apply, NetOf, NetFrames, Depth;
    if es == [] {
      NothingNet(s, s', d);
    } else {
      var op := es[0].op;
      assert es[0] == Act(op);
      FirstAct(s, op, es, s', d);
      ActLevels(s, op);
      NetNext(es, RaiseNoCollect, LowerNoCollect);
      NetNext(es, EnterWait, LeaveWait);
      assert es == [es[0]] + es[1..];
      LevelsAreNet(Apply(s, op), es[1..], s', d);
    }
  }

  lemma NothingNet(s: Thread, s': Thread, d: nat)
    requires d > 0 && Inv(s) && Run(s, [], s', d - 1)
    ensures s' == s && NetOf([], RaiseNoCollect, LowerNoCollect) == NetOf([], EnterWait, LeaveWait) == NetFrames([]) == 0
  {
  }

  lemma FirstAct(s: Thread, op: Op, es: seq<Event>, s': Thread, d: nat)
    requires d > 0 && Inv(s) && es != [] && es[0] == Act(op) && Run(s, es, s', d - 1)
    ensures s.sites != [] && Top(s.sites).tls in s.tls && Enabled(s, op) && Inv(Apply(s, op))
    ensures Run(Apply(s, op), es[1..], s', d - 1)
  {
    hide Inv, Enabled, Apply;
    AfterKeepsInv(s, es[0], d - 1);
  }
}
