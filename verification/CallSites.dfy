/**
 The call-site protocol of one thread: the chain of live call sites of possibly interleaved
 runtimes, and the thread-local storage each of them works on. The objects come first; what
 their methods do is stated, and then studied, on values.
 */
module CallSites {

  // ---- the objects -----------------------------------------------------------------

  /** Where a throw jumps to. */
  class SjljFrame {
  }

  /** A GC shadow stack: compiled functions' frames, some with no map yet, and dynamic frames of call sites. */
  datatype Shadow =
    | NoFrame
    | CodeFrame(hasMap: bool, prev: Shadow)
    | DynamicFrame(site: CallSite, prev: Shadow)

  class Tls {
    const runtime: Runtime
    var noCollect: nat
    var wait: nat
    var sjljFrame: SjljFrame?
    var shadowTop: Shadow

    constructor (runtime: Runtime)
      ensures this.runtime == runtime && Val() == TlsVal(0, 0, null, NoFrame)
    {
      this.runtime := runtime;
      noCollect, wait, sjljFrame, shadowTop := 0, 0, null, NoFrame;
    }

    ghost function Val(): TlsVal
      reads this
    {
      TlsVal(noCollect, wait, sjljFrame, shadowTop)
    }
  }

  class CallSite {
    var prev: CallSite?
    var tls: Tls?
    var dynamicPrev: Shadow
    var nestLevel: nat
    var wait: nat
    var noCollect: nat
    var result: bool

    constructor ()
    {
      prev, tls, dynamicPrev := null, null, NoFrame;
      nestLevel, wait, noCollect, result := 0, 0, 0, false;
    }
  }

  /** The chain of live call sites from the outermost: each points to the one before and holds what `sites` says. */
  ghost predicate Chained(scopes: seq<CallSiteScope>, chain: seq<CallSite>, sites: seq<Site>)
    reads scopes, chain
  {
    && |scopes| == |chain| == |sites|
    && forall i {:trigger scopes[i]} :: 0 <= i < |scopes| ==>
         scopes[i].callSite == chain[i] && chain[i].tls != null &&
         chain[i].prev == PrevOf(chain, i) && scopes[i].Val() == sites[i]
  }

  ghost function PrevOf(chain: seq<CallSite>, i: int): CallSite?
    requires 0 <= i <= |chain|
  {
    if i == 0 then null else chain[i - 1]
  }

  /** Without its innermost call site a chain is still one. */
  lemma ChainedBelow(scopes: seq<CallSiteScope>, chain: seq<CallSite>, sites: seq<Site>)
    requires Chained(scopes, chain, sites) && chain != []
    ensures |scopes| == |chain| == |sites|
    ensures Chained(scopes[..|scopes| - 1], chain[..|chain| - 1], Below(sites))
    ensures chain[|chain| - 1].prev == PrevOf(chain[..|chain| - 1], |chain| - 1)
  {
    var n := |chain| - 1;
    assert scopes[n].callSite == chain[n];
    var scopes', chain', sites' := scopes[..n], chain[..n], Below(sites);
    forall i {:trigger scopes'[i]} | 0 <= i < n
      ensures scopes'[i].callSite == chain'[i] && chain'[i].tls != null
      ensures chain'[i].prev == PrevOf(chain', i) && scopes'[i].Val() == sites'[i]
    {
      assert scopes'[i] == scopes[i] && sites'[i] == sites[i];
    }
    assert Chained(scopes', chain', sites');
  }

  /** And so it is with one more. */
  lemma ChainedAbove(scopes: seq<CallSiteScope>, chain: seq<CallSite>, sites: seq<Site>, scope: CallSiteScope)
    requires Chained(scopes, chain, sites)
    requires scope.callSite.tls != null && scope.callSite.prev == PrevOf(chain, |chain|)
    ensures Chained(scopes + [scope], chain + [scope.callSite], sites + [scope.Val()])
  {
    var scopes', chain', sites' := scopes + [scope], chain + [scope.callSite], sites + [scope.Val()];
    forall i {:trigger scopes'[i]} | 0 <= i < |scopes'|
      ensures scopes'[i].callSite == chain'[i] && chain'[i].tls != null
      ensures chain'[i].prev == PrevOf(chain', i) && scopes'[i].Val() == sites'[i]
    {
      if i < |scopes| {
        assert scopes'[i] == scopes[i] && sites'[i] == sites[i];
      }
    }
    assert Chained(scopes', chain', sites');
  }

  ghost predicate Stored(tls: map<Tls, TlsVal>)
    reads tls.Keys
  {
    forall t :: t in tls ==> t.Val() == tls[t]
  }

  /** The slots of a thread, and what they stand for. */
  class ThreadState {
    var callSite: CallSite?
    var sjljFrame: SjljFrame?
    ghost var scopes: seq<CallSiteScope>
    ghost var chain: seq<CallSite>
    ghost var view: Thread

    constructor ()
      ensures Linked() && view == Thread([], map[], null) && scopes == [] && chain == []
    {
      callSite, sjljFrame := null, null;
      scopes, chain, view := [], [], Thread([], map[], null);
    }

    /** The slot starts the chain of the live call sites, and `view` is what chain and storage hold. */
    ghost predicate Linked()
      reads this, scopes, chain, view.tls.Keys
    {
      && callSite == PrevOf(chain, |chain|)
      && (forall i, j :: 0 <= i < j < |chain| ==> chain[i] != chain[j])
      && Chained(scopes, chain, view.sites)
      && Stored(view.tls)
      && view.external == sjljFrame
    }

    lemma CurrentIsTop()
      requires Linked() && chain != []
      ensures callSite == chain[|chain| - 1] && callSite.tls != null
      ensures |view.sites| == |scopes| == |chain|
      ensures scopes[|scopes| - 1].callSite == callSite && scopes[|scopes| - 1].Val() == Top(view.sites)
    {
      assert scopes[|scopes| - 1].callSite == callSite;
    }

    /** Brings `view` up to date with the current scope. */
    ghost method Refresh(scope: CallSiteScope, view': Thread)
      requires chain != [] && scopes != [] && scope == scopes[|scopes| - 1] && scope.callSite == chain[|chain| - 1]
      requires callSite == scope.callSite && scope.callSite.tls != null
      requires scope.callSite.prev == PrevOf(chain, |chain| - 1)
      requires forall i, j :: 0 <= i < j < |chain| ==> chain[i] != chain[j]
      requires view'.sites != [] && Top(view'.sites) == scope.Val()
      requires Chained(scopes[..|scopes| - 1], chain[..|chain| - 1], Below(view'.sites))
      requires Stored(view'.tls) && view'.external == sjljFrame
      modifies this`view
      ensures Linked() && view == view'
    {
      view := view';
      ghost var n := |scopes| - 1;
      forall i | 0 <= i < |scopes|
        ensures scopes[i].callSite == chain[i] && chain[i].tls != null
        ensures chain[i].prev == PrevOf(chain, i) && scopes[i].Val() == view.sites[i]
      {
        if i < n {
          assert scopes[..n][i] == scopes[i];
          assert PrevOf(chain[..n], i) == PrevOf(chain, i);
        }
      }
    }

    lemma BelowCurrent()
      requires Linked() && chain != []
      ensures |view.sites| == |scopes| == |chain|
      ensures Chained(scopes[..|scopes| - 1], chain[..|chain| - 1], Below(view.sites))
      ensures callSite.prev == PrevOf(chain, |chain| - 1)
      ensures forall i :: 0 <= i < |scopes| - 1 ==> scopes[i] != scopes[|scopes| - 1]
    {
      hide Stored;
      ChainedBelow(scopes, chain, view.sites);
      var n := |scopes| - 1;
      forall i | 0 <= i < n ensures scopes[i] != scopes[n] {
        assert scopes[i].callSite == chain[i] && scopes[n].callSite == chain[n] && chain[i] != chain[n];
      }
    }

    /** Makes the call site before the current one current again. */
    method Leave(ghost view': Thread)
      requires chain != [] && callSite == chain[|chain| - 1]
      requires forall i, j :: 0 <= i < j < |chain| ==> chain[i] != chain[j]
      requires Chained(scopes, chain, view.sites) && Stored(view'.tls)
      requires view'.sites == Below(view.sites) && view'.external == sjljFrame
      modifies this
      ensures Linked() && view == view'
      ensures scopes == old(scopes)[..|old(scopes)| - 1] && chain == old(chain)[..|old(chain)| - 1]
    {
      hide Stored, Chained;
      ChainedBelow(scopes, chain, view.sites);
      callSite := callSite.prev;
      scopes, chain, view := scopes[..|scopes| - 1], chain[..|chain| - 1], view';
    }

    /** Makes the new call site the thread's current one. */
    method Enter(scope: CallSiteScope, ghost view': Thread)
      requires scope.callSite !in chain && scope !in scopes
      requires scope.callSite.tls != null && callSite == scope.callSite.prev == PrevOf(chain, |chain|)
      requires forall i, j :: 0 <= i < j < |chain| ==> chain[i] != chain[j]
      requires Chained(scopes, chain, view.sites) && Stored(view'.tls)
      requires view'.sites == view.sites + [scope.Val()] && view'.external == sjljFrame
      modifies this
      ensures Linked() && view == view'
      ensures scopes == old(scopes) + [scope] && chain == old(chain) + [scope.callSite] && sjljFrame == old(sjljFrame)
    {
      hide Chained, Stored;
      ChainedAbove(scopes, chain, view.sites, scope);
      callSite := scope.callSite;
      scopes, chain, view := scopes + [scope], chain + [scope.callSite], view';
    }
  }

  /** The local variables of the macro that opens a call site. */
  class CallSiteScope {
    const runtime: Runtime
    const callSite: CallSite
    const frame: SjljFrame
    var prevFrame: SjljFrame?
    var restored: bool
    var thrown: bool
    ghost var tries: seq<TryFrame> // the try scopes that compiled code has open in this call site

    constructor (runtime: Runtime)
      ensures this.runtime == runtime && fresh(callSite) && fresh(frame)
      ensures !restored && !thrown && prevFrame == null && tries == []
    {
      this.runtime := runtime;
      this.callSite := new CallSite();
      this.frame := new SjljFrame;
      prevFrame, restored, thrown, tries := null, false, false, [];
    }

    ghost function Val(): Site
      requires callSite.tls != null
      reads this, callSite
    {
      Site(callSite, callSite.tls, callSite.nestLevel, callSite.noCollect, callSite.wait, callSite.dynamicPrev,
           frame, prevFrame, restored, thrown, tries)
    }

    /** Nothing of this scope is in use on the thread yet. */
    ghost predicate Unused(thread: ThreadState)
      reads this, thread
    {
      && this !in thread.scopes && callSite !in thread.chain
      && !restored && !thrown && prevFrame == null && tries == []
      && NewFrame(thread.view, frame)
    }

    /** This is the thread's innermost call site. */
    ghost predicate Current(thread: ThreadState)
      reads thread
    {
      thread.scopes != [] && thread.scopes[|thread.scopes| - 1] == this
    }

    /** Initializes the call site and sets its frame. */
    method InitializeAndSetFrame(thread: ThreadState)
      requires runtime.Valid() && thread.Linked() && Shared(thread.view) && AllAccounted(thread.view) && Unused(thread)
      modifies this, runtime, thread, callSite, thread.view.tls.Keys
      ensures runtime.Valid() && thread.Linked() && Current(thread)
      ensures callSite.tls != null && callSite.tls.runtime == runtime
      ensures thread.view == Begin(old(thread.view), runtime, callSite, callSite.tls, frame)
      ensures FindSite(old(thread.view).sites, runtime) < 0 ==> fresh(callSite.tls)
      ensures runtime.tlsList == old(runtime.tlsList) + if callSite.nestLevel > 0 then [] else [callSite.tls]
    {
      hide Chained, Stored, ThreadState.Linked, Begin, Init, SetFrame, Shared, AllAccounted;
      ghost var s := thread.view;
      runtime.InitializeCallSite(thread, this);
      InitEnds(s, runtime, callSite, callSite.tls, frame);
      var prev := Runtime.SetSjljFrame(thread, frame);
      SetPrevFrame(thread, prev);
      BeginIsInitAndFrame(s, runtime, callSite, callSite.tls, frame);
    }

    /** The opening of a call site. */
    method Open(thread: ThreadState)
      requires runtime.Valid() && thread.Linked() && Inv(thread.view) && Unused(thread)
      modifies this, runtime, thread, callSite, thread.view.tls.Keys
      ensures runtime.Valid() && thread.Linked() && Inv(thread.view) && Current(thread)
      ensures callSite.tls != null && callSite.tls.runtime == runtime
      ensures thread.view == Begin(old(thread.view), runtime, callSite, callSite.tls, frame)
      ensures runtime.tlsList == old(runtime.tlsList) + if callSite.nestLevel > 0 then [] else [callSite.tls]
    {
      ghost var s := thread.view;
      assert Shared(s) && AllAccounted(s);
      hide Inv, Begin, Shared, AllAccounted;
      InitializeAndSetFrame(thread);
      BeginKeepsInv(s, runtime, callSite, callSite.tls, frame);
    }

    /** Remembers the frame that was set before. */
    method SetPrevFrame(thread: ThreadState, prev: SjljFrame?)
      requires thread.Linked() && Current(thread) && thread.chain != []
      modifies this`prevFrame, thread`view
      ensures thread.Linked() && thread.view == WithPrevFrame(old(thread.view), prev)
    {
      ghost var s := thread.view;
      thread.CurrentIsTop();
      thread.BelowCurrent();
      hide Chained;
      prevFrame := prev;
      assert Below(WithPrevFrame(s, prev).sites) == Below(s.sites);
      thread.Refresh(this, WithPrevFrame(s, prev));
    }

    /** The first restore finds this call site's own frame; later ones do nothing. */
    method RestoreSjljFrame(thread: ThreadState)
      requires thread.Linked() && Inv(thread.view) && Current(thread) && thread.chain != [] && tries == []
      modifies this`restored, thread`sjljFrame, thread`view, thread.view.tls.Keys
      ensures thread.Linked() && Inv(thread.view)
      ensures thread.view == Apply(old(thread.view), RestoreFrame)
    {
      ghost var s := thread.view;
      assert Top(s.sites).tls in s.tls;
      thread.CurrentIsTop();
      if !restored {
        RestoreFindsOwnFrame(s);
        ApplyKeepsInv(s, RestoreFrame);
        hide Inv, Apply;
        var prev := Runtime.SetSjljFrame(thread, prevFrame);
        assert prev == frame;
        MarkRestored(thread);
        RestoreIsSetFrame(s);
      } else {
        RestoreAgain(s);
      }
    }

    method MarkRestored(thread: ThreadState)
      requires thread.Linked() && Current(thread) && thread.chain != []
      modifies this`restored, thread`view
      ensures thread.Linked() && thread.view == WithRestored(old(thread.view))
    {
      ghost var s := thread.view;
      thread.CurrentIsTop();
      thread.BelowCurrent();
      hide Chained;
      restored := true;
      assert Below(WithRestored(s).sites) == Below(s.sites);
      thread.Refresh(this, WithRestored(s));
    }

    /** A throw from the body jumps to this call site's own frame: the rest of the body is left out. */
    method Land(thread: ThreadState) returns (target: SjljFrame?)
      requires thread.Linked() && Inv(thread.view) && Current(thread) && thread.chain != [] && !restored && tries == []
      modifies this`thrown, thread`view
      ensures target == frame
      ensures thread.Linked() && Inv(thread.view) && thread.view == Apply(old(thread.view), Throw)
    {
      hide Chained, Inv, Stored, ThrowTarget;
      ghost var s := thread.view;
      thread.CurrentIsTop();
      thread.BelowCurrent();
      ThrowFacts(s);
      ThrowLandsInnermost(s);
      target := Runtime.DynamicThrow(thread);
      thrown := true;
      thread.Refresh(this, Apply(s, Throw));
    }

    method SetResult(thread: ThreadState)
      requires thread.Linked()
      modifies callSite`result
      ensures thread.Linked() && callSite.result == !thrown
    {
      callSite.result := !thrown;
    }

    /** Records the outcome and uninitializes the call site. */
    method Finish(thread: ThreadState) returns (result: bool)
      requires runtime.Valid() && thread.Linked() && callSite == thread.callSite && thread.view.sites != []
      requires Top(thread.view.sites).tls in thread.view.tls && Top(thread.view.sites).tls.runtime == runtime
      requires UninitAsserts(thread.view)
      requires callSite.nestLevel == 0 ==> callSite.tls in runtime.tlsList
      modifies runtime, thread, callSite`result, thread.view.tls.Keys
      ensures runtime.Valid() && thread.Linked() && thread.view == Uninit(old(thread.view))
      ensures runtime.tlsList ==
              if callSite.nestLevel > 0 then old(runtime.tlsList) else Without(old(runtime.tlsList), callSite.tls)
      ensures result == !thrown
    {
      hide Chained, Stored, ThreadState.Linked, UninitAsserts, Uninit;
      SetResult(thread);
      result := callSite.result;
      runtime.UninitializeCallSite(thread, callSite);
    }

    /** The end of the call site. */
    method Close(thread: ThreadState) returns (result: bool)
      requires runtime.Valid() && thread.Linked() && Inv(thread.view) && Current(thread) && thread.chain != []
      requires Top(thread.view.sites).tls in thread.view.tls && Top(thread.view.sites).tls.runtime == runtime
      requires MayEnd(thread.view)
      requires callSite.nestLevel == 0 ==> callSite.tls in runtime.tlsList
      modifies this`restored, runtime, thread, callSite`result, thread.view.tls.Keys
      ensures runtime.Valid() && thread.Linked() && Inv(thread.view)
      ensures thread.view == Unwind(old(thread.view))
      ensures runtime.tlsList ==
              if callSite.nestLevel > 0 then old(runtime.tlsList) else Without(old(runtime.tlsList), callSite.tls)
      ensures result == !thrown
    {
      hide Inv, MayEnd, UninitAsserts, Apply, Uninit, Chained, Stored, ThreadState.Linked;
      ghost var s := thread.view;
      thread.CurrentIsTop();
      CloseFacts(s);
      RestoreSjljFrame(thread);
      result := Finish(thread);
    }
  }

  /** A try scope in compiled code: its frame, and what the function saved to leave it. */
  class TryScope {
    const frame: SjljFrame
    var prevFrame: SjljFrame?
    var shadow: Shadow

    constructor ()
      ensures fresh(frame)
    {
      frame := new SjljFrame;
      prevFrame, shadow := null, NoFrame;
    }

    ghost function Val(): TryFrame
      reads this
    {
      TryFrame(frame, prevFrame, shadow)
    }

    /** This is the try scope opened last in the thread's innermost call site. */
    ghost predicate Last(thread: ThreadState, scope: CallSiteScope)
      reads this, thread, scope
    {
      && thread.chain != [] && scope.Current(thread)
      && scope.tries != [] && LastTry(scope.tries) == Val()
    }

    method Open(thread: ThreadState, ghost scope: CallSiteScope)
      requires thread.Linked() && Inv(thread.view) && scope.Current(thread) && thread.chain != []
      requires NewFrame(thread.view, frame)
      modifies this, scope`tries, thread`view, thread.view.tls.Keys
      ensures thread.Linked() && Inv(thread.view) && Last(thread, scope)
      ensures thread.view == Apply(old(thread.view), OpenTry(frame))
      ensures scope.tries == old(scope.tries) + [Val()]
    {
      hide Chained, Inv, NewFrame;
      ghost var s := thread.view;
      thread.CurrentIsTop();
      thread.BelowCurrent();
      TopIsStored(s);
      OpenTryKeepsInv(s, frame);
      var tls := thread.callSite.tls;
      prevFrame, shadow := tls.sjljFrame, tls.shadowTop;
      tls.sjljFrame := frame;
      scope.tries := scope.tries + [Val()];
      ApplyIs(s, OpenTry(frame));
      thread.Refresh(scope, Apply(s, OpenTry(frame)));
    }

    method Close(thread: ThreadState, ghost scope: CallSiteScope)
      requires thread.Linked() && Inv(thread.view) && Last(thread, scope)
      modifies scope`tries, thread`view, thread.view.tls.Keys
      ensures thread.Linked() && Inv(thread.view)
      ensures thread.view == Apply(old(thread.view), CloseTry) && scope.tries == OtherTries(old(scope.tries))
    {
      hide Chained, Inv;
      ghost var s := thread.view;
      thread.CurrentIsTop();
      thread.BelowCurrent();
      TopIsStored(s);
      ApplyKeepsInv(s, CloseTry);
      var tls := thread.callSite.tls;
      tls.sjljFrame := prevFrame;
      scope.tries := OtherTries(scope.tries);
      ApplyIs(s, CloseTry);
      thread.Refresh(scope, Apply(s, CloseTry));
    }

    /** A throw while this is the last try scope jumps to its frame, and control goes on behind the scope. */
    method Catch(thread: ThreadState, ghost scope: CallSiteScope) returns (target: SjljFrame?)
      requires thread.Linked() && Inv(thread.view) && Last(thread, scope)
      requires Top(thread.view.sites).tls in thread.view.tls && Enabled(thread.view, Op.Catch)
      modifies scope`tries, thread`view, thread.view.tls.Keys
      ensures target == frame
      ensures thread.Linked() && Inv(thread.view)
      ensures thread.view == Apply(old(thread.view), Op.Catch) && scope.tries == OtherTries(old(scope.tries))
    {
      hide Chained, Inv, ThrowTarget, Enabled;
      ghost var s := thread.view;
      thread.CurrentIsTop();
      thread.BelowCurrent();
      ApplyKeepsInv(s, Op.Catch);
      ThrowLands(s);
      target := Runtime.DynamicThrow(thread);
      var tls := thread.callSite.tls;
      tls.sjljFrame, tls.shadowTop := prevFrame, shadow;
      scope.tries := OtherTries(scope.tries);
      ApplyIs(s, Op.Catch);
      thread.Refresh(scope, Apply(s, Op.Catch));
    }
  }

  lemma TopIsStored(s: Thread)
    requires Inv(s) && s.sites != []
    ensures Top(s.sites).tls in s.tls
  {
  }

  lemma OpenTryKeepsInv(s: Thread, frame: SjljFrame)
    requires Inv(s) && s.sites != [] && Top(s.sites).tls in s.tls && NewFrame(s, frame)
    ensures Inv(Apply(s, OpenTry(frame)))
  {
    ApplyKeepsInv(s, OpenTry(frame));
  }

  /** A step inside a call site changes that call site and its storage only. */
  lemma ApplyIs(s: Thread, op: Op)
    requires s.sites != [] && Top(s.sites).tls in s.tls
    ensures var s', c := Apply(s, op), Top(s.sites);
            && s'.sites != [] && Top(s'.sites) == ApplySite(c, s.tls[c.tls], op) && Below(s'.sites) == Below(s.sites)
            && s'.tls == s.tls[c.tls := ApplyTls(s.tls[c.tls], op, c)] && s'.external == s.external
  {
  }

  lemma ThrowFacts(s: Thread)
    requires Inv(s) && s.sites != []
    ensures Top(s.sites).tls in s.tls && Inv(Apply(s, Throw))
    ensures var s' := Apply(s, Throw);
            && s'.sites != [] && Top(s'.sites) == Top(s.sites).(thrown := true)
            && Below(s'.sites) == Below(s.sites) && s'.tls == s.tls && s'.external == s.external
  {
    assert Top(s.sites).tls in s.tls;
    ThrowKeepsInv(s);
  }

  lemma CloseFacts(s: Thread)
    requires Inv(s) && s.sites != [] && Top(s.sites).tls in s.tls && MayEnd(s)
    ensures var s' := Apply(s, RestoreFrame);
            && s'.sites != [] && Top(s'.sites).tls == Top(s.sites).tls && s'.tls.Keys == s.tls.Keys
            && Top(s'.sites).tls in s'.tls && UninitAsserts(s') && Uninit(s') == Unwind(s)
    ensures Inv(Unwind(s)) && Top(s.sites).tries == []
  {
    EndUnwinds(s);
    EndKeepsInv(s);
    MayEndMeetsAsserts(s);
    TopOfApply(s, RestoreFrame);
  }

  lemma TopOfApply(s: Thread, op: Op)
    requires s.sites != [] && Top(s.sites).tls in s.tls
    ensures var s' := Apply(s, op);
      s'.sites != [] && Top(s'.sites).tls == Top(s.sites).tls && Top(s'.sites).tls in s'.tls
    ensures Apply(s, op).tls.Keys == s.tls.Keys
  {
  }

  lemma ThrowKeepsInv(s: Thread)
    requires Inv(s) && s.sites != [] && Top(s.sites).tls in s.tls
    ensures Inv(Apply(s, Throw))
  {
    hide Shared, Nested, AllAccounted, AllAlternate;
    ApplyShared(s, Throw);
    ApplyNested(s, Throw);
    ApplyAlternates(s, Throw);
    ThrowAccounted(s);
  }

  lemma ThrowAccounted(s: Thread)
    requires AllAccounted(s) && s.sites != [] && Top(s.sites).tls in s.tls
    ensures AllAccounted(Apply(s, Throw))
  {
    var s' := Apply(s, Throw);
    BelowOf(Below(s.sites), Top(s'.sites));
    forall t | t in s'.tls
      ensures Accounted(s'.sites, t, s'.tls[t])
    {
      assert Accounted(s.sites, t, s.tls[t]);
    }
  }

  function WithRestored(s: Thread): Thread
    requires s.sites != []
  {
    s.(sites := Below(s.sites) + [Top(s.sites).(restored := true)])
  }

  lemma RestoreIsSetFrame(s: Thread)
    requires s.sites != [] && Top(s.sites).tls in s.tls && !Top(s.sites).restored
    ensures Apply(s, RestoreFrame) == WithRestored(SetFrame(s, Top(s.sites).prevFrame))
  {
  }

  lemma RestoreAgain(s: Thread)
    requires s.sites != [] && Top(s.sites).tls in s.tls && Top(s.sites).restored
    ensures Apply(s, RestoreFrame) == s
  {
    assert s.sites == Below(s.sites) + [Top(s.sites)];
    assert Top(s.sites).(restored := true) == Top(s.sites);
  }

  function WithPrevFrame(s: Thread, prev: SjljFrame?): Thread
    requires s.sites != []
  {
    s.(sites := Below(s.sites) + [Top(s.sites).(prevFrame := prev)])
  }

  lemma InitEnds(s: Thread, r: Runtime, site: CallSite, tls: Tls, frame: SjljFrame)
    requires Shared(s)
    requires FindSite(s.sites, r) >= 0 ==> tls == s.sites[FindSite(s.sites, r)].tls
    ensures var t := Init(s, r, site, tls, frame);
            t.sites != [] && Top(t.sites).tls in t.tls && t.tls.Keys == s.tls.Keys + {tls}
  {
  }

  lemma UpdateTwice(m: map<Tls, TlsVal>, t: Tls, v: TlsVal, w: TlsVal)
    ensures m[t := v][t := w] == m[t := w]
  {
  }

  lemma BeginIsInitAndFrame(s: Thread, r: Runtime, site: CallSite, tls: Tls, frame: SjljFrame)
    requires Shared(s)
    ensures var t := Init(s, r, site, tls, frame);
            && t.sites != [] && Top(t.sites).tls in t.tls
            && Begin(s, r, site, tls, frame) == WithPrevFrame(SetFrame(t, frame), SjljOf(t))
  {
    var t := Init(s, r, site, tls, frame);
    var c := Top(t.sites);
    BelowOf(s.sites, c);
    hide Shared, FindSite, Nest;
    UpdateTwice(s.tls, c.tls, t.tls[c.tls], t.tls[c.tls].(sjlj := frame));
  }

  class Runtime {
    var tlsList: seq<Tls>
    var noThreadEvent: bool

    constructor ()
      ensures Valid() && tlsList == []
    {
      tlsList, noThreadEvent := [], true;
    }

    /** The event is signalled exactly while no storage is listed, and no storage is listed twice. */
    ghost predicate Valid()
      reads this
    {
      && (noThreadEvent <==> tlsList == [])
      && AllDistinct(tlsList)
    }

    /** Walks the chain for the innermost call site of this runtime. */
    method FindCallSite(thread: ThreadState) returns (callSite: CallSite?, ghost i: int)
      requires thread.Linked()
      ensures -1 <= i < |thread.chain| == |thread.view.sites| && i == FindSite(thread.view.sites, this)
      ensures callSite ==
              if FindSite(thread.view.sites, this) < 0 then null else thread.chain[FindSite(thread.view.sites, this)]
      ensures i >= 0 ==> callSite.tls == thread.view.sites[i].tls &&
                         callSite.nestLevel == thread.view.sites[i].nestLevel
      ensures i >= 0 && callSite.tls in thread.view.tls ==> callSite.tls.Val() == thread.view.tls[callSite.tls]
    {
      callSite, i := thread.callSite, |thread.chain| - 1;
      while callSite != null
        invariant -1 <= i < |thread.chain|
        invariant callSite == PrevOf(thread.chain, i + 1)
        invariant forall j :: i < j < |thread.chain| ==> thread.view.sites[j].tls.runtime != this
        decreases i
      {
        assert thread.scopes[i].Val() == thread.view.sites[i];
        if callSite.tls.runtime == this {
          break;
        }
        callSite, i := callSite.prev, i - 1;
      }
      FindIs(thread.view.sites, this, i);
    }

    /** Saves the exception recovery snapshot, and starts a dynamic frame unless one is on top. */
    method NestCallSite(callSite: CallSite, prevCallSite: CallSite, tls: Tls)
      requires callSite != prevCallSite && tls.shadowTop != NoFrame
      modifies callSite, tls
      ensures callSite.prev == old(callSite.prev) && callSite.tls == tls
      ensures callSite.nestLevel == prevCallSite.nestLevel + 1
      ensures callSite.noCollect == old(tls.noCollect) && callSite.wait == old(tls.wait)
      ensures callSite.dynamicPrev == old(tls.shadowTop)
      ensures tls.Val() == old(tls.Val()).(shadow := Nest(old(tls.shadowTop), callSite))
    {
      callSite.tls := tls;
      callSite.nestLevel := prevCallSite.nestLevel + 1;
      callSite.noCollect := tls.noCollect;
      callSite.wait := tls.wait;
      callSite.dynamicPrev := tls.shadowTop;
      if MapOf(tls.shadowTop) != DynamicMap {
        tls.shadowTop := DynamicFrame(callSite, tls.shadowTop);
      }
    }

    /** Creates and lists new storage of this runtime. */
    method CreateStorage(callSite: CallSite) returns (tls: Tls)
      requires Valid()
      modifies this, callSite`tls
      ensures Valid() && fresh(tls) && tls.runtime == this && callSite.tls == tls
      ensures tls.Val() == TlsVal(0, 0, null, DynamicFrame(callSite, NoFrame))
      ensures tlsList == old(tlsList) + [tls]
    {
      tls := new Tls(this);
      callSite.tls := tls;
      tls.shadowTop := DynamicFrame(callSite, NoFrame);
      if tlsList == [] {
        noThreadEvent := false;
      }
      tlsList := tlsList + [tls];
    }

    /** The storage of an enclosing call site is used again. */
    method EnterNested(thread: ThreadState, scope: CallSiteScope, prevCallSite: CallSite, tls: Tls, ghost j: nat)
      requires thread.Linked() && scope !in thread.scopes && scope.callSite !in thread.chain
      requires scope.prevFrame == null && !scope.restored && !scope.thrown && scope.tries == []
      requires scope.callSite.prev == thread.callSite && scope.callSite != prevCallSite
      requires forall i :: 0 <= i < |thread.view.sites| ==> thread.view.sites[i].tls in thread.view.tls
      requires j == FindSite(thread.view.sites, this) && tls == thread.view.sites[j].tls
      requires prevCallSite.nestLevel == thread.view.sites[j].nestLevel
      requires tls in thread.view.tls && tls.shadowTop != NoFrame
      modifies thread, scope.callSite, tls
      ensures thread.Linked() && scope.callSite.tls == tls && scope.callSite.nestLevel > 0
      ensures thread.scopes == old(thread.scopes) + [scope] && thread.chain == old(thread.chain) + [scope.callSite]
      ensures thread.view == Init(old(thread.view), this, scope.callSite, tls, scope.frame)
    {
      hide Chained, FindSite;
      ghost var s := thread.view;
      assert tls.Val() == s.tls[tls];
      NestCallSite(scope.callSite, prevCallSite, tls);
      thread.Enter(scope, Thread(s.sites + [scope.Val()], s.tls[tls := tls.Val()], s.external));
    }

    /** New storage is made. */
    method EnterOuter(thread: ThreadState, scope: CallSiteScope)
      requires Valid() && thread.Linked() && scope !in thread.scopes && scope.callSite !in thread.chain
      requires scope.prevFrame == null && !scope.restored && !scope.thrown && scope.tries == []
      requires scope.callSite.prev == thread.callSite
      requires scope.callSite.nestLevel == scope.callSite.wait == scope.callSite.noCollect == 0
      requires scope.callSite.dynamicPrev == NoFrame
      requires forall i :: 0 <= i < |thread.view.sites| ==> thread.view.sites[i].tls in thread.view.tls
      requires FindSite(thread.view.sites, this) < 0
      modifies this, thread, scope.callSite
      ensures Valid() && thread.Linked() && scope.callSite.tls != null
      ensures thread.scopes == old(thread.scopes) + [scope] && thread.chain == old(thread.chain) + [scope.callSite]
      ensures var tls := scope.callSite.tls; fresh(tls) && tls.runtime == this && tlsList == old(tlsList) + [tls]
      ensures scope.callSite.nestLevel == 0
      ensures thread.view == Init(old(thread.view), this, scope.callSite, scope.callSite.tls, scope.frame)
    {
      hide Chained, FindSite;
      ghost var s := thread.view;
      var tls := CreateStorage(scope.callSite);
      assert Stored(s.tls);
      thread.Enter(scope, Thread(s.sites + [scope.Val()], s.tls[tls := tls.Val()], s.external));
    }

    /** Clears the call site and points it at the thread's current one. */
    method LinkCallSite(thread: ThreadState, callSite: CallSite)
      requires thread.Linked() && callSite !in thread.chain
      modifies callSite
      ensures thread.Linked() && callSite.prev == thread.callSite
      ensures callSite.nestLevel == callSite.wait == callSite.noCollect == 0 && callSite.dynamicPrev == NoFrame
    {
      callSite.nestLevel, callSite.wait, callSite.noCollect, callSite.result := 0, 0, 0, false;
      callSite.prev, callSite.tls, callSite.dynamicPrev := thread.callSite, null, NoFrame;
    }

    method InitializeCallSite(thread: ThreadState, scope: CallSiteScope)
      requires Valid() && thread.Linked() && Shared(thread.view) && AllAccounted(thread.view)
      requires scope.runtime == this && scope.prevFrame == null && !scope.restored && !scope.thrown && scope.tries == []
      requires scope !in thread.scopes && scope.callSite !in thread.chain
      modifies this, thread, scope.callSite, thread.view.tls.Keys
      ensures Valid() && thread.Linked()
      ensures scope.callSite.tls != null && thread.scopes == old(thread.scopes) + [scope]
      ensures thread.chain == old(thread.chain) + [scope.callSite]
      ensures thread.view == Init(old(thread.view), this, scope.callSite, scope.callSite.tls, scope.frame)
      ensures scope.callSite.tls.runtime == this
      ensures scope.callSite.nestLevel > 0 <==> FindSite(old(thread.view).sites, this) >= 0
      ensures scope.callSite.nestLevel > 0 ==>
                scope.callSite.tls == old(thread.view).sites[FindSite(old(thread.view).sites, this)].tls
      ensures if scope.callSite.nestLevel > 0 then tlsList == old(tlsList) && scope.callSite.tls in old(thread.view).tls
              else fresh(scope.callSite.tls) && tlsList == old(tlsList) + [scope.callSite.tls]
    {
      hide Shared, AllAccounted, Chained, PrevOf, Stored, Init;
      ghost var s := thread.view;
      SharedStored(s);
      var callSite := scope.callSite;
      LinkCallSite(thread, callSite);
      var prevCallSite, j := FindCallSite(thread);
      if prevCallSite != null { // the runtime is on the chain already
        StorageNotEmpty(s, j);
        var tls := prevCallSite.tls;
        assert thread.chain[j] in thread.chain;
        EnterNested(thread, scope, prevCallSite, tls, j);
      } else {
        EnterOuter(thread, scope);
      }
    }

    /** Sets the frame a throw jumps to, in the current storage or outside any call site in the thread's slot. */
    static method SetSjljFrame(thread: ThreadState, frame: SjljFrame?) returns (prev: SjljFrame?)
      requires thread.Linked() && (thread.chain != [] ==> Top(thread.view.sites).tls in thread.view.tls)
      modifies thread`sjljFrame, thread`view, thread.view.tls.Keys
      ensures thread.Linked() && thread.view == SetFrame(old(thread.view), frame) && prev == SjljOf(old(thread.view))
      ensures thread.callSite == null ==> thread.sjljFrame == frame && prev == old(thread.sjljFrame)
      ensures thread.callSite != null ==>
                && thread.callSite.tls != null && thread.sjljFrame == old(thread.sjljFrame)
                && thread.callSite.tls.sjljFrame == frame && prev == old(thread.callSite.tls.sjljFrame)
    {
      ghost var s := thread.view;
      if thread.callSite == null {
        prev := thread.sjljFrame;
        thread.sjljFrame := frame;
      } else {
        assert thread.scopes[|thread.scopes| - 1].Val() == Top(s.sites);
        var tls := thread.callSite.tls;
        prev := tls.sjljFrame;
        tls.sjljFrame := frame;
      }
      thread.view := SetFrame(s, frame);
    }

    /** The frame that a throw jumps to. */
    static method DynamicThrow(thread: ThreadState) returns (frame: SjljFrame?)
      requires thread.Linked() && thread.chain != [] && Top(thread.view.sites).tls in thread.view.tls
      ensures frame == ThrowTarget(thread.view)
    {
      assert thread.scopes[|thread.scopes| - 1].Val() == Top(thread.view.sites);
      var tls := thread.callSite.tls;
      frame := if tls.sjljFrame != null then tls.sjljFrame else thread.sjljFrame;
    }

    /** Takes storage off the list. */
    method RemoveStorage(tls: Tls)
      requires Valid() && tls in tlsList
      modifies this
      ensures Valid() && tlsList == Without(old(tlsList), tls)
    {
      WithoutDistinct(tlsList, tls);
      tlsList := Without(tlsList, tls);
      if tlsList == [] {
        noThreadEvent := true;
      }
    }

    method UninitializeCallSite(thread: ThreadState, callSite: CallSite)
      requires Valid() && thread.Linked() && callSite == thread.callSite && thread.view.sites != []
      requires Top(thread.view.sites).tls in thread.view.tls && Top(thread.view.sites).tls.runtime == this
      requires UninitAsserts(thread.view)
      requires callSite.nestLevel == 0 ==> callSite.tls in tlsList
      modifies this, thread, thread.view.tls.Keys
      ensures Valid() && thread.Linked()
      ensures thread.view == Uninit(old(thread.view))
      ensures thread.scopes == old(thread.scopes)[..|old(thread.scopes)| - 1]
      ensures thread.chain == old(thread.chain)[..|old(thread.chain)| - 1]
      ensures tlsList == if callSite.nestLevel > 0 then old(tlsList) else Without(old(tlsList), callSite.tls)
    {
      hide Chained;
      ghost var s := thread.view;
      thread.CurrentIsTop();
      var tls := callSite.tls;

      tls.noCollect := callSite.noCollect;
      tls.wait := callSite.wait;
      tls.shadowTop := callSite.dynamicPrev;

      thread.Leave(Uninit(s));
      if callSite.nestLevel == 0 { // the outermost of its runtime
        RemoveStorage(tls);
      }
    }
  }

  /** `xs` without `x`. */
  function Without(xs: seq<Tls>, x: Tls): (r: seq<Tls>)
    ensures x !in r
    ensures forall y :: y in r ==> y in xs
    ensures forall y :: y in xs ==> y == x || y in r
  {
    if xs == [] then []
    else if xs[0] == x then Without(xs[1..], x)
    else [xs[0]] + Without(xs[1..], x)
  }

  ghost predicate AllDistinct(xs: seq<Tls>) {
    forall i, j :: 0 <= i < j < |xs| ==> xs[i] != xs[j]
  }

  lemma {:induction false} WithoutDistinct(xs: seq<Tls>, x: Tls)
    requires AllDistinct(xs)
    ensures AllDistinct(Without(xs, x))
  {
    if xs != [] {
      var rest := Without(xs[1..], x);
      WithoutDistinct(xs[1..], x);
      assert forall k :: 0 <= k < |rest| ==> rest[k] in xs[1..] by {
        assert forall k :: 0 <= k < |rest| ==> rest[k] in rest;
      }
    }
  }

  /** A frame's map, if it has one yet, belongs to compiled code or to a dynamic frame. */
  datatype FrameMap = NoMap | CodeMap | DynamicMap

  function MapOf(x: Shadow): FrameMap {
    match x
    case NoFrame => NoMap
    case CodeFrame(hasMap, _) => if hasMap then CodeMap else NoMap
    case DynamicFrame(_, _) => DynamicMap
  }

  /** A nested call site puts its frame on any top but a dynamic one; a frame without a map is not dynamic. */
  function Nest(top: Shadow, site: CallSite): Shadow {
    if MapOf(top) != DynamicMap then DynamicFrame(site, top) else top
  }

  lemma SharedStored(s: Thread)
    requires Shared(s)
    ensures forall i :: 0 <= i < |s.sites| ==> s.sites[i].tls in s.tls
  {
  }

  lemma StorageNotEmpty(s: Thread, j: nat)
    requires Shared(s) && AllAccounted(s) && j < |s.sites|
    ensures s.sites[j].tls in s.tls && s.tls[s.sites[j].tls].shadow != NoFrame
  {
    ChainAt(s.sites, j);
    ShadowNotEmpty(s.sites, s.sites[j].tls, s.tls[s.sites[j].tls]);
  }

  // ---- their values -----------------------------------------------------------------

  datatype TlsVal = TlsVal(noCollect: nat, wait: nat, sjlj: SjljFrame?, shadow: Shadow)

  /** A live call site, with the local variables of the macro that opened it. */
  datatype Site = Site(
    site: CallSite,
    tls: Tls,
    nestLevel: nat,
    noCollect: nat,
    wait: nat,
    dynamicPrev: Shadow,
    frame: SjljFrame,
    prevFrame: SjljFrame?,
    restored: bool,
    thrown: bool,
    tries: seq<TryFrame>)

  /**
   A try scope that compiled code has open: its frame, the frame that was set before, and the
   shadow stack it was opened with.
   */
  datatype TryFrame = TryFrame(frame: SjljFrame, prevFrame: SjljFrame?, shadow: Shadow)

  function LastTry(tries: seq<TryFrame>): TryFrame
    requires tries != []
  {
    tries[|tries| - 1]
  }

  function OtherTries(tries: seq<TryFrame>): seq<TryFrame>
    requires tries != []
  {
    tries[..|tries| - 1]
  }

  /** Call sites from the outermost to the innermost; storage by its owner; the frame set outside any call site. */
  datatype Thread = Thread(sites: seq<Site>, tls: map<Tls, TlsVal>, external: SjljFrame?)

  function Top(sites: seq<Site>): Site
    requires sites != []
  {
    sites[|sites| - 1]
  }

  function Below(sites: seq<Site>): seq<Site>
    requires sites != []
  {
    sites[..|sites| - 1]
  }

  /** The position of the innermost call site of runtime `r`, or -1. */
  function FindSite(sites: seq<Site>, r: Runtime): (i: int)
    ensures -1 <= i < |sites|
    ensures i >= 0 ==> sites[i].tls.runtime == r
    ensures forall j :: i < j < |sites| ==> sites[j].tls.runtime != r
    decreases |sites|
  {
    if sites == [] then -1
    else if Top(sites).tls.runtime == r then |sites| - 1
    else FindSite(Below(sites), r)
  }

  lemma FindIs(sites: seq<Site>, r: Runtime, i: int)
    requires -1 <= i < |sites| && (i >= 0 ==> sites[i].tls.runtime == r)
    requires forall j :: i < j < |sites| ==> sites[j].tls.runtime != r
    ensures i == FindSite(sites, r)
  {
  }

  // ---- the steps ---------------------------------------------------------------------

  /** What `initializeCallSite` and `setSjljFrame` do at the opening of a call site. */
  function Begin(s: Thread, r: Runtime, site: CallSite, storage: Tls, frame: SjljFrame): Thread
    requires forall i :: 0 <= i < |s.sites| ==> s.sites[i].tls in s.tls
  {
    var j := FindSite(s.sites, r);
    if j >= 0 then
      var t := s.sites[j].tls;
      var v := s.tls[t];
      var c := Site(site, t, s.sites[j].nestLevel + 1, v.noCollect, v.wait, v.shadow, frame, v.sjlj, false, false, []);
      var top := Nest(v.shadow, site);
      Thread(s.sites + [c], s.tls[t := v.(shadow := top, sjlj := frame)], s.external)
    else
      var c := Site(site, storage, 0, 0, 0, NoFrame, frame, null, false, false, []);
      Thread(s.sites + [c], s.tls[storage := TlsVal(0, 0, frame, DynamicFrame(site, NoFrame))], s.external)
  }

  /** `initializeCallSite` alone, before the new frame is set. */
  function Init(s: Thread, r: Runtime, site: CallSite, storage: Tls, frame: SjljFrame): Thread
    requires forall i :: 0 <= i < |s.sites| ==> s.sites[i].tls in s.tls
  {
    var j := FindSite(s.sites, r);
    if j >= 0 then
      var t := s.sites[j].tls;
      var v := s.tls[t];
      var c := Site(site, t, s.sites[j].nestLevel + 1, v.noCollect, v.wait, v.shadow, frame, null, false, false, []);
      var top := Nest(v.shadow, site);
      Thread(s.sites + [c], s.tls[t := v.(shadow := top)], s.external)
    else
      var c := Site(site, storage, 0, 0, 0, NoFrame, frame, null, false, false, []);
      Thread(s.sites + [c], s.tls[storage := TlsVal(0, 0, null, DynamicFrame(site, NoFrame))], s.external)
  }

  /** `setSjljFrame`. */
  function SetFrame(s: Thread, frame: SjljFrame?): Thread
    requires s.sites != [] ==> Top(s.sites).tls in s.tls
  {
    if s.sites == [] then s.(external := frame)
    else var t := Top(s.sites).tls; s.(tls := s.tls[t := s.tls[t].(sjlj := frame)])
  }

  /**
   What compiled code and the macros do inside the innermost call site. `Catch` is a throw that
   jumps to the try scope opened last, `Throw` one that jumps to the call site itself.
   */
  datatype Op =
    | PushFrame(hasMap: bool)
    | PopFrame
    | SetMap(hasMap: bool)
    | RaiseNoCollect
    | LowerNoCollect
    | EnterWait
    | LeaveWait
    | OpenTry(frame: SjljFrame)
    | CloseTry
    | Catch
    | Throw
    | RestoreFrame

  function ApplyTls(v: TlsVal, op: Op, c: Site): TlsVal {
    match op
    case PushFrame(hasMap) => v.(shadow := CodeFrame(hasMap, v.shadow))
    case PopFrame => if v.shadow.NoFrame? then v else v.(shadow := v.shadow.prev)
    case SetMap(hasMap) => if v.shadow.CodeFrame? then v.(shadow := v.shadow.(hasMap := hasMap)) else v
    case RaiseNoCollect => v.(noCollect := v.noCollect + 1)
    case LowerNoCollect => if v.noCollect == 0 then v else v.(noCollect := v.noCollect - 1)
    case EnterWait => v.(wait := v.wait + 1)
    case LeaveWait => if v.wait == 0 then v else v.(wait := v.wait - 1)
    case OpenTry(frame) => v.(sjlj := frame)
    case CloseTry => if c.tries == [] then v else v.(sjlj := LastTry(c.tries).prevFrame)
    case Catch =>
      if c.tries == [] then v
      else v.(sjlj := LastTry(c.tries).prevFrame, shadow := LastTry(c.tries).shadow)
    case Throw => v
    case RestoreFrame => if c.restored then v else v.(sjlj := c.prevFrame)
  }

  function ApplySite(c: Site, v: TlsVal, op: Op): Site {
    match op
    case OpenTry(frame) => c.(tries := c.tries + [TryFrame(frame, v.sjlj, v.shadow)])
    case CloseTry => if c.tries == [] then c else c.(tries := OtherTries(c.tries))
    case Catch => if c.tries == [] then c else c.(tries := OtherTries(c.tries))
    case Throw => c.(thrown := true)
    case RestoreFrame => c.(restored := true)
    case _ => c
  }

  function Apply(s: Thread, op: Op): Thread
    requires s.sites != [] && Top(s.sites).tls in s.tls
  {
    var c := Top(s.sites);
    Thread(Below(s.sites) + [ApplySite(c, s.tls[c.tls], op)], s.tls[c.tls := ApplyTls(s.tls[c.tls], op, c)], s.external)
  }

  /** `uninitializeCallSite`. */
  function Uninit(s: Thread): Thread
    requires s.sites != [] && Top(s.sites).tls in s.tls
  {
    var c := Top(s.sites);
    var v := s.tls[c.tls].(noCollect := c.noCollect, wait := c.wait, shadow := c.dynamicPrev);
    Thread(Below(s.sites), if c.nestLevel > 0 then s.tls[c.tls := v] else s.tls - {c.tls}, s.external)
  }

  /** The end of a call site: the frame is restored if that has not happened yet. */
  function End(s: Thread): Thread
    requires s.sites != [] && Top(s.sites).tls in s.tls
  {
    Uninit(Apply(s, RestoreFrame))
  }

  // ---- what is assumed of the code that runs in a call site -------------------------------

  /** The shadow stack right after the call site was initialized. */
  function BaseOf(c: Site): Shadow {
    if c.nestLevel > 0 then Nest(c.dynamicPrev, c.site) else DynamicFrame(c.site, c.dynamicPrev)
  }

  function Depth(x: Shadow): nat {
    match x
    case NoFrame => 0
    case CodeFrame(_, p) => Depth(p) + 1
    case DynamicFrame(_, p) => Depth(p) + 1
  }

  /** The part of the shadow stack that the code in the innermost try scope, or else in the call site, started with. */
  function FloorOf(tries: seq<TryFrame>, base: Shadow): Shadow {
    if tries == [] then base else LastTry(tries).shadow
  }

  /** The frames that are in use: of the call site and of the try scopes open in it. */
  function FramesOf(c: Site): set<SjljFrame> {
    {c.frame} + set i | 0 <= i < |c.tries| :: c.tries[i].frame
  }

  predicate NewFrame(s: Thread, frame: SjljFrame) {
    && (forall i :: 0 <= i < |s.sites| ==> frame !in FramesOf(s.sites[i]))
    && frame != s.external
  }

  /**
   The code in a call site, in its body or after it, pops only frames above the ones it started
   with, lowers only levels that were raised, and does not throw from a wait region. A throw jumps
   to the try scope opened last; with none open it reaches the call site, whose frame must still
   be set. The frame is restored by code that runs outside all try scopes.
   */
  predicate Enabled(s: Thread, op: Op)
    requires s.sites != [] && Top(s.sites).tls in s.tls
  {
    var c := Top(s.sites);
    var v := s.tls[c.tls];
    match op
    case PopFrame => Depth(v.shadow) > Depth(FloorOf(c.tries, BaseOf(c)))
    case SetMap(_) => v.shadow != BaseOf(c)
    case LowerNoCollect => v.noCollect > c.noCollect
    case LeaveWait => v.wait > c.wait
    case OpenTry(frame) => NewFrame(s, frame)
    case CloseTry => c.tries != []
    case Catch => c.tries != [] && v.wait == c.wait
    case Throw => c.tries == [] && !c.restored && v.wait == c.wait
    case RestoreFrame => c.tries == []
    case _ => true
  }

  /** Unless it was left by a throw, a body ends with its frames popped and its levels lowered. */
  predicate MayEnd(s: Thread)
    requires s.sites != [] && Top(s.sites).tls in s.tls
  {
    var c := Top(s.sites);
    var v := s.tls[c.tls];
    c.tries == [] && v.wait == c.wait && (c.thrown || (v.noCollect == c.noCollect && v.shadow == BaseOf(c)))
  }

  // ---- the invariant ---------------------------------------------------------------------------

  /** `x` is `base` with frames of compiled code on top. */
  ghost predicate Extends(x: Shadow, base: Shadow) {
    x == base || (x.CodeFrame? && Extends(x.prev, base))
  }

  /** No dynamic frame sits directly on another. */
  ghost predicate Alternating(x: Shadow) {
    match x
    case NoFrame => true
    case CodeFrame(_, p) => Alternating(p)
    case DynamicFrame(_, p) => !p.DynamicFrame? && Alternating(p)
  }

  /** What a call site leaves in the frame slot: its own frame, or once that is restored the one before. */
  function OwnFrame(c: Site): SjljFrame? {
    if c.restored then c.prevFrame else c.frame
  }

  function SlotOf(tries: seq<TryFrame>, own: SjljFrame?): SjljFrame? {
    if tries == [] then own else LastTry(tries).frame
  }

  /** Each try scope remembers the frame of the one opened before it, and its shadow stack grew from there. */
  ghost predicate Stacked(tries: seq<TryFrame>, own: SjljFrame?, base: Shadow)
    decreases |tries|
  {
    tries == [] ||
    var last, rest := LastTry(tries), OtherTries(tries);
    && last.prevFrame == SlotOf(rest, own)
    && Extends(last.shadow, base) && Depth(last.shadow) >= Depth(FloorOf(rest, base))
    && Stacked(rest, own, base)
  }

  /** The storage is as the innermost call site on it, and the code in that, may leave it. */
  ghost predicate Holds(c: Site, v: TlsVal) {
    && v.noCollect >= c.noCollect && v.wait >= c.wait
    && Extends(v.shadow, BaseOf(c)) && Depth(v.shadow) >= Depth(FloorOf(c.tries, BaseOf(c)))
    && v.sjlj == SlotOf(c.tries, OwnFrame(c)) && Stacked(c.tries, OwnFrame(c), BaseOf(c))
  }

  /**
   The storage `v` of `t` is what the call sites on `t` account for: each of them saved
   what the ones before it left, and added only to that.
   */
  ghost predicate Accounted(sites: seq<Site>, t: Tls, v: TlsVal)
    decreases |sites|
  {
    if sites == [] then v == TlsVal(0, 0, null, NoFrame)
    else
      var c := Top(sites);
      if c.tls != t then Accounted(Below(sites), t, v)
      else
        Holds(c, v) && Accounted(Below(sites), t, TlsVal(c.noCollect, c.wait, c.prevFrame, c.dynamicPrev))
  }

  /** The number of call sites of runtime `r`. */
  ghost function CountOf(sites: seq<Site>, r: Runtime): nat
    decreases |sites|
  {
    if sites == [] then 0
    else CountOf(Below(sites), r) + if Top(sites).tls.runtime == r then 1 else 0
  }

  /** Per runtime there is one storage, shared by all its call sites, and none without a call site. */
  ghost predicate Shared(s: Thread) {
    && (forall i :: 0 <= i < |s.sites| ==> s.sites[i].tls in s.tls)
    && (forall t :: t in s.tls ==> OnChain(s.sites, t))
    && OnePerRuntime(s.sites)
  }

  ghost predicate OnChain(sites: seq<Site>, t: Tls)
    decreases |sites|
  {
    sites != [] && (Top(sites).tls == t || OnChain(Below(sites), t))
  }

  ghost predicate OnePerRuntime(sites: seq<Site>) {
    forall i, j :: 0 <= i < |sites| && 0 <= j < |sites| && sites[i].tls.runtime == sites[j].tls.runtime ==>
      sites[i].tls == sites[j].tls
  }

  /** The nest level is the number of earlier call sites of the same runtime. */
  ghost predicate Nested(sites: seq<Site>) {
    forall i :: 0 <= i < |sites| ==> sites[i].nestLevel == CountOf(sites[..i], sites[i].tls.runtime)
  }

  ghost predicate DistinctFrames(s: Thread) {
    && (forall i, j :: 0 <= i < j < |s.sites| ==> FramesOf(s.sites[i]) !! FramesOf(s.sites[j]))
    && (forall i :: 0 <= i < |s.sites| ==> OwnFramesDistinct(s.sites[i]))
    && (forall i :: 0 <= i < |s.sites| ==> s.external !in FramesOf(s.sites[i]))
  }

  ghost predicate OwnFramesDistinct(c: Site) {
    && (forall k :: 0 <= k < |c.tries| ==> c.tries[k].frame != c.frame)
    && (forall k, l :: 0 <= k < l < |c.tries| ==> c.tries[k].frame != c.tries[l].frame)
  }

  ghost predicate AllAccounted(s: Thread) {
    forall t :: t in s.tls ==> Accounted(s.sites, t, s.tls[t])
  }

  ghost predicate AllAlternate(s: Thread) {
    && (forall t :: t in s.tls ==> Alternating(s.tls[t].shadow))
    && (forall i :: 0 <= i < |s.sites| ==> SavedAlternate(s.sites[i]))
  }

  ghost predicate SavedAlternate(c: Site) {
    Alternating(c.dynamicPrev) && forall k :: 0 <= k < |c.tries| ==> Alternating(c.tries[k].shadow)
  }

  ghost predicate Inv(s: Thread) {
    Shared(s) && Nested(s.sites) && DistinctFrames(s) && AllAccounted(s) && AllAlternate(s)
  }

  /** The frame is a new one, and so is the storage if one has to be made. */
  ghost predicate NewIn(s: Thread, r: Runtime, storage: Tls, frame: SjljFrame) {
    && (FindSite(s.sites, r) < 0 ==> storage !in s.tls && storage.runtime == r)
    && NewFrame(s, frame)
  }

  // ---- the top of the shadow stack -----------------------------------------------------

  lemma {:induction false} ExtendsNotEmpty(x: Shadow, base: Shadow)
    requires Extends(x, base) && base != NoFrame
    ensures x != NoFrame
  {
  }

  /** A nested call site never finds an empty shadow stack. */
  lemma {:induction false} ShadowNotEmpty(sites: seq<Site>, t: Tls, v: TlsVal)
    requires Accounted(sites, t, v) && OnChain(sites, t)
    ensures v.shadow != NoFrame
    decreases |sites|
  {
    var c := Top(sites);
    if c.tls == t {
      ExtendsNotEmpty(v.shadow, BaseOf(c));
    } else {
      ShadowNotEmpty(Below(sites), t, v);
    }
  }

  lemma {:induction false} ChainAt(sites: seq<Site>, i: nat)
    requires i < |sites|
    ensures OnChain(sites, sites[i].tls)
    decreases |sites|
  {
    if i < |sites| - 1 {
      ChainAt(Below(sites), i);
    }
  }

  lemma {:induction false} ChainFound(sites: seq<Site>, t: Tls)
    requires OnChain(sites, t)
    ensures FindSite(sites, t.runtime) >= 0
    ensures exists i :: 0 <= i < |sites| && sites[i].tls == t
    decreases |sites|
  {
    if Top(sites).tls == t {
      assert sites[|sites| - 1].tls == t;
    } else {
      ChainFound(Below(sites), t);
      var i :| 0 <= i < |Below(sites)| && Below(sites)[i].tls == t;
      assert sites[i].tls == t;
    }
  }

  // ---- opening a call site ----------------------------------------------------------------

  lemma {:induction false} CountFromFind(sites: seq<Site>, r: Runtime)
    requires Nested(sites)
    ensures var j := FindSite(sites, r); CountOf(sites, r) == if j < 0 then 0 else sites[j].nestLevel + 1
    decreases |sites|
  {
    if sites != [] {
      var below := Below(sites);
      if Top(sites).tls.runtime == r {
        assert sites[|sites| - 1].nestLevel == CountOf(below, r);
      } else {
        assert forall i :: 0 <= i < |below| ==> below[..i] == sites[..i];
        CountFromFind(below, r);
      }
    }
  }

  lemma BelowOf(sites: seq<Site>, c: Site)
    ensures Below(sites + [c]) == sites && Top(sites + [c]) == c
  {
  }

  lemma BeginNested(s: Thread, r: Runtime, site: CallSite, storage: Tls, frame: SjljFrame)
    requires Shared(s) && Nested(s.sites) && NewIn(s, r, storage, frame)
    ensures Nested(Begin(s, r, site, storage, frame).sites)
  {
    var s' := Begin(s, r, site, storage, frame);
    CountFromFind(s.sites, r);
    forall i | 0 <= i < |s'.sites|
      ensures s'.sites[i].nestLevel == CountOf(s'.sites[..i], s'.sites[i].tls.runtime)
    {
      assert s'.sites[..i] == s.sites[..i];
      assert s.sites[..|s.sites|] == s.sites;
    }
  }

  lemma ChainOfNext(sites: seq<Site>, c: Site, t: Tls)
    ensures OnChain(sites + [c], t) <==> c.tls == t || OnChain(sites, t)
  {
    BelowOf(sites, c);
  }

  lemma OnePerRuntimeNext(sites: seq<Site>, c: Site)
    requires OnePerRuntime(sites)
    requires forall i :: 0 <= i < |sites| && sites[i].tls.runtime == c.tls.runtime ==> sites[i].tls == c.tls
    ensures OnePerRuntime(sites + [c])
  {
  }

  /** Opening adds one call site, on the storage of its runtime, which is new if there was none. */
  lemma BeginAddsSite(s: Thread, r: Runtime, site: CallSite, storage: Tls, frame: SjljFrame) returns (c: Site)
    requires Shared(s) && NewIn(s, r, storage, frame)
    ensures var s' := Begin(s, r, site, storage, frame);
            s'.sites == s.sites + [c] && s'.tls.Keys == s.tls.Keys + {c.tls}
    ensures c.tls.runtime == r
    ensures FindSite(s.sites, r) < 0 || c.tls == s.sites[FindSite(s.sites, r)].tls
  {
    hide OnChain, OnePerRuntime, Nest;
    var s' := Begin(s, r, site, storage, frame);
    c := s'.sites[|s.sites|];
    if FindSite(s.sites, r) >= 0 {
      assert c.tls in s.tls;
    }
  }

  lemma BeginShared(s: Thread, r: Runtime, site: CallSite, storage: Tls, frame: SjljFrame)
    requires Shared(s) && NewIn(s, r, storage, frame)
    ensures Shared(Begin(s, r, site, storage, frame))
  {
    hide OnChain, Begin;
    var s' := Begin(s, r, site, storage, frame);
    var c := BeginAddsSite(s, r, site, storage, frame);
    forall t | t in s'.tls
      ensures OnChain(s'.sites, t)
    {
      ChainOfNext(s.sites, c, t);
    }
    OnePerRuntimeNext(s.sites, c);
  }

  lemma AccountedNext(sites: seq<Site>, c: Site, t: Tls, v: TlsVal)
    ensures c.tls != t ==> (Accounted(sites + [c], t, v) <==> Accounted(sites, t, v))
    ensures c.tls == t && Holds(c, v) && Accounted(sites, t, TlsVal(c.noCollect, c.wait, c.prevFrame, c.dynamicPrev)) ==>
              Accounted(sites + [c], t, v)
  {
    BelowOf(sites, c);
  }

  lemma BeginAccounted(s: Thread, r: Runtime, site: CallSite, storage: Tls, frame: SjljFrame)
    requires Shared(s) && Nested(s.sites) && AllAccounted(s) && NewIn(s, r, storage, frame)
    ensures AllAccounted(Begin(s, r, site, storage, frame))
  {
    hide Nested, OnChain, OnePerRuntime, Accounted;
    var s' := Begin(s, r, site, storage, frame);
    var c := s'.sites[|s.sites|];
    assert s'.sites == s.sites + [c];
    if FindSite(s.sites, r) < 0 {
      NotOn(s.sites, storage);
    } else {
      assert c.tls in s.tls;
    }
    assert Holds(c, s'.tls[c.tls]);
    hide Holds;
    forall t | t in s'.tls
      ensures Accounted(s'.sites, t, s'.tls[t])
    {
      AccountedNext(s.sites, c, t, s'.tls[t]);
    }
  }

  lemma {:induction false} NotOn(sites: seq<Site>, t: Tls)
    requires forall i :: 0 <= i < |sites| ==> sites[i].tls != t
    ensures Accounted(sites, t, TlsVal(0, 0, null, NoFrame))
    decreases |sites|
  {
    if sites != [] {
      NotOn(Below(sites), t);
    }
  }

  lemma BeginAlternates(s: Thread, r: Runtime, site: CallSite, storage: Tls, frame: SjljFrame)
    requires Shared(s) && AllAlternate(s) && NewIn(s, r, storage, frame)
    ensures AllAlternate(Begin(s, r, site, storage, frame))
  {
  }

  lemma BeginDistinct(s: Thread, r: Runtime, site: CallSite, storage: Tls, frame: SjljFrame)
    requires Shared(s) && NewIn(s, r, storage, frame) && DistinctFrames(s)
    ensures DistinctFrames(Begin(s, r, site, storage, frame))
  {
    hide OnChain, OnePerRuntime, Nest;
    var s' := Begin(s, r, site, storage, frame);
    assert FramesOf(s'.sites[|s.sites|]) == {frame} && s'.external == s.external;
    hide Begin, Shared, FramesOf;
    assert forall i :: 0 <= i < |s.sites| ==> s'.sites[i] == s.sites[i];
  }

  lemma BeginKeepsInv(s: Thread, r: Runtime, site: CallSite, storage: Tls, frame: SjljFrame)
    requires Inv(s) && NewIn(s, r, storage, frame)
    ensures Inv(Begin(s, r, site, storage, frame))
  {
    hide Shared, Nested, AllAccounted, AllAlternate, DistinctFrames, NewIn;
    SharedStored(s);
    BeginShared(s, r, site, storage, frame);
    BeginNested(s, r, site, storage, frame);
    BeginDistinct(s, r, site, storage, frame);
    BeginAccounted(s, r, site, storage, frame);
    BeginAlternates(s, r, site, storage, frame);
  }

  // ---- inside and at the end ------------------------------------------------------------------

  lemma ApplyKeepsInv(s: Thread, op: Op)
    requires Inv(s) && s.sites != [] && Top(s.sites).tls in s.tls && Enabled(s, op)
    ensures Inv(Apply(s, op))
  {
    hide Shared, Nested, AllAccounted, AllAlternate, DistinctFrames, Enabled, Apply;
    ApplyShared(s, op);
    ApplyNested(s, op);
    ApplyDistinct(s, op);
    ApplyAccounted(s, op);
    ApplyAlternates(s, op);
  }

  lemma ApplyFrames(c: Site, v: TlsVal, op: Op)
    requires OwnFramesDistinct(c)
    requires op.OpenTry? ==> op.frame !in FramesOf(c)
    ensures FramesOf(ApplySite(c, v, op)) <= FramesOf(c) + if op.OpenTry? then {op.frame} else {}
    ensures OwnFramesDistinct(ApplySite(c, v, op))
  {
    forall k | 0 <= k < |c.tries| ensures c.tries[k].frame in FramesOf(c) {
    }
  }

  lemma ApplyDistinct(s: Thread, op: Op)
    requires DistinctFrames(s) && s.sites != [] && Top(s.sites).tls in s.tls && Enabled(s, op)
    ensures DistinctFrames(Apply(s, op))
  {
    var c, v := s.sites[|s.sites| - 1], s.tls[Top(s.sites).tls];
    var s' := Apply(s, op);
    assert op.OpenTry? ==> NewFrame(s, op.frame);
    ApplyFrames(c, v, op);
    assert s'.sites[|s.sites| - 1] == ApplySite(c, v, op);
    hide Enabled, ApplySite, ApplyTls, FramesOf, OwnFramesDistinct;
    forall i, j | 0 <= i < j < |s'.sites| ensures FramesOf(s'.sites[i]) !! FramesOf(s'.sites[j]) {
      assert s'.sites[i] == s.sites[i] && FramesOf(s.sites[i]) !! FramesOf(s.sites[j]);
    }
  }

  lemma ApplyShared(s: Thread, op: Op)
    requires Shared(s) && s.sites != [] && Top(s.sites).tls in s.tls
    ensures Shared(Apply(s, op))
  {
    var s' := Apply(s, op);
    BelowOf(Below(s.sites), Top(s'.sites));
    assert forall i :: 0 <= i < |s'.sites| ==> s'.sites[i].tls == s.sites[i].tls;
  }

  lemma ApplyNested(s: Thread, op: Op)
    requires Nested(s.sites) && s.sites != [] && Top(s.sites).tls in s.tls
    ensures Nested(Apply(s, op).sites)
  {
    var s' := Apply(s, op);
    forall i | 0 <= i < |s'.sites|
      ensures s'.sites[i].nestLevel == CountOf(s'.sites[..i], s'.sites[i].tls.runtime)
    {
      assert s'.sites[..i] == s.sites[..i];
    }
  }

  lemma {:induction false} ExtendsDepth(x: Shadow, base: Shadow)
    requires Extends(x, base)
    ensures Depth(x) >= Depth(base)
  {
    if x != base {
      ExtendsDepth(x.prev, base);
    }
  }

  lemma FloorDepth(tries: seq<TryFrame>, own: SjljFrame?, base: Shadow)
    requires Stacked(tries, own, base)
    ensures Extends(FloorOf(tries, base), base) && Depth(FloorOf(tries, base)) >= Depth(base)
  {
    ExtendsDepth(FloorOf(tries, base), base);
  }

  lemma StackedMore(tries: seq<TryFrame>, more: TryFrame, own: SjljFrame?, base: Shadow)
    requires Stacked(tries, own, base) && more.prevFrame == SlotOf(tries, own)
    requires Extends(more.shadow, base) && Depth(more.shadow) >= Depth(FloorOf(tries, base))
    ensures Stacked(tries + [more], own, base)
  {
    hide Extends, Depth;
    assert OtherTries(tries + [more]) == tries;
  }

  lemma OpenTryHolds(c: Site, v: TlsVal, frame: SjljFrame)
    requires Holds(c, v)
    ensures Holds(ApplySite(c, v, OpenTry(frame)), ApplyTls(v, OpenTry(frame), c))
  {
    hide Extends, Depth, Stacked;
    StackedMore(c.tries, TryFrame(frame, v.sjlj, v.shadow), OwnFrame(c), BaseOf(c));
  }

  lemma LeaveTryHolds(c: Site, v: TlsVal, op: Op)
    requires Holds(c, v) && c.tries != [] && (op.CloseTry? || op.Catch?)
    ensures Holds(ApplySite(c, v, op), ApplyTls(v, op, c))
  {
  }

  lemma ApplyHolds(s: Thread, op: Op)
    requires s.sites != [] && Top(s.sites).tls in s.tls && Enabled(s, op)
    requires Holds(Top(s.sites), s.tls[Top(s.sites).tls])
    ensures var c, v := Top(s.sites), s.tls[Top(s.sites).tls]; Holds(ApplySite(c, v, op), ApplyTls(v, op, c))
  {
    var c, v := Top(s.sites), s.tls[Top(s.sites).tls];
    match op
    case OpenTry(frame) => OpenTryHolds(c, v, frame);
    case CloseTry => LeaveTryHolds(c, v, op);
    case Catch => LeaveTryHolds(c, v, op);
    case _ => FloorDepth(c.tries, OwnFrame(c), BaseOf(c));
  }

  lemma ApplyAccounted(s: Thread, op: Op)
    requires Shared(s) && AllAccounted(s) && s.sites != [] && Top(s.sites).tls in s.tls && Enabled(s, op)
    ensures AllAccounted(Apply(s, op))
  {
    var s' := Apply(s, op);
    var c := Top(s.sites);
    BelowOf(Below(s.sites), Top(s'.sites));
    assert Accounted(s.sites, c.tls, s.tls[c.tls]);
    ApplyHolds(s, op);
    hide Enabled, ApplyTls, Holds;
    forall t | t in s'.tls
      ensures Accounted(s'.sites, t, s'.tls[t])
    {
      assert Accounted(s.sites, t, s.tls[t]);
    }
  }

  lemma ApplyAlternates(s: Thread, op: Op)
    requires AllAlternate(s) && s.sites != [] && Top(s.sites).tls in s.tls
    ensures AllAlternate(Apply(s, op))
  {
    var c, v := Top(s.sites), s.tls[Top(s.sites).tls];
    assert SavedAlternate(c) && Alternating(v.shadow);
    AlternatesStep(c, v, op);
    hide ApplyTls, ApplySite, SavedAlternate;
    forall i | 0 <= i < |Apply(s, op).sites|
      ensures SavedAlternate(Apply(s, op).sites[i])
    {
      assert i < |s.sites| - 1 ==> SavedAlternate(s.sites[i]);
    }
  }

  lemma AlternatesStep(c: Site, v: TlsVal, op: Op)
    requires SavedAlternate(c) && Alternating(v.shadow)
    ensures SavedAlternate(ApplySite(c, v, op)) && Alternating(ApplyTls(v, op, c).shadow)
  {
  }

  lemma FindBelow(sites: seq<Site>, r: Runtime)
    requires sites != []
    ensures Top(sites).tls.runtime != r ==> FindSite(sites, r) == FindSite(Below(sites), r)
    ensures Top(sites).tls.runtime == r ==> FindSite(sites, r) == |sites| - 1
  {
  }

  lemma OuterOfRuntime(sites: seq<Site>)
    requires Nested(sites) && sites != []
    ensures Top(sites).nestLevel > 0 <==> FindSite(Below(sites), Top(sites).tls.runtime) >= 0
  {
    NestedBelow(sites);
    CountFromFind(Below(sites), Top(sites).tls.runtime);
    assert sites[|sites| - 1].nestLevel == CountOf(Below(sites), Top(sites).tls.runtime);
  }

  lemma OnePerRuntimeBelow(sites: seq<Site>)
    requires OnePerRuntime(sites) && sites != []
    ensures OnePerRuntime(Below(sites))
  {
    forall i, j | 0 <= i < |Below(sites)| && 0 <= j < |Below(sites)| && Below(sites)[i].tls.runtime == Below(sites)[j].tls.runtime
      ensures Below(sites)[i].tls == Below(sites)[j].tls
    {
      assert sites[i].tls == sites[j].tls;
    }
  }

  lemma UninitShared(s: Thread)
    requires Shared(s) && Nested(s.sites) && s.sites != [] && Top(s.sites).tls in s.tls
    ensures Shared(Uninit(s))
  {
    var s', c := Uninit(s), Top(s.sites);
    OuterOfRuntime(s.sites);
    OnePerRuntimeBelow(s.sites);
    if c.nestLevel > 0 {
      var j := FindSite(Below(s.sites), c.tls.runtime);
      assert s.sites[j].tls == s.sites[|s.sites| - 1].tls;
      ChainAt(Below(s.sites), j);
    }
    hide OnePerRuntime, Nested;
    forall i | 0 <= i < |s'.sites|
      ensures s'.sites[i].tls in s'.tls
    {
      assert s.sites[i].tls in s.tls;
    }
  }

  lemma NestedBelow(sites: seq<Site>)
    requires Nested(sites) && sites != []
    ensures Nested(Below(sites))
  {
    var below := Below(sites);
    assert forall i :: 0 <= i < |below| ==> below[..i] == sites[..i];
  }

  lemma UninitAccounted(s: Thread)
    requires Shared(s) && AllAccounted(s) && s.sites != [] && Top(s.sites).tls in s.tls
    requires Top(s.sites).restored && Top(s.sites).tries == []
    ensures AllAccounted(Uninit(s))
  {
    var c := Top(s.sites);
    assert Accounted(s.sites, c.tls, s.tls[c.tls]);
    forall t | t in Uninit(s).tls
      ensures Accounted(Uninit(s).sites, t, Uninit(s).tls[t])
    {
      assert Accounted(s.sites, t, s.tls[t]);
    }
  }

  lemma UninitAlternates(s: Thread)
    requires AllAlternate(s) && s.sites != [] && Top(s.sites).tls in s.tls
    ensures AllAlternate(Uninit(s))
  {
  }

  lemma UninitKeepsInv(s: Thread)
    requires Inv(s) && s.sites != [] && Top(s.sites).tls in s.tls
    requires Top(s.sites).restored && Top(s.sites).tries == []
    ensures Inv(Uninit(s))
  {
    hide Shared, Nested, AllAccounted, AllAlternate, FramesOf, OwnFramesDistinct;
    UninitShared(s);
    NestedBelow(s.sites);
    UninitAccounted(s);
    UninitAlternates(s);
  }

  lemma EndKeepsInv(s: Thread)
    requires Inv(s) && s.sites != [] && Top(s.sites).tls in s.tls && Top(s.sites).tries == []
    ensures Inv(End(s))
  {
    hide Inv;
    ApplyKeepsInv(s, RestoreFrame);
    UninitKeepsInv(Apply(s, RestoreFrame));
  }

  // ---- a call site leaves the thread as it found it ---------------------------------------------

  /** The thread as it was before its innermost call site, from what that call site saved. */
  function Unwind(s: Thread): Thread
    requires s.sites != [] && Top(s.sites).tls in s.tls
  {
    var c := Top(s.sites);
    Thread(Below(s.sites),
           if c.nestLevel > 0 then s.tls[c.tls := TlsVal(c.noCollect, c.wait, c.prevFrame, c.dynamicPrev)]
           else s.tls - {c.tls},
           s.external)
  }

  lemma UpdateBack(m: map<Tls, TlsVal>, t: Tls, v: TlsVal)
    requires t in m
    ensures m[t := v][t := m[t]] == m
  {
  }

  lemma InsertAndRemove(m: map<Tls, TlsVal>, t: Tls, v: TlsVal)
    requires t !in m
    ensures m[t := v] - {t} == m
  {
  }

  lemma BeginUnwinds(s: Thread, r: Runtime, site: CallSite, storage: Tls, frame: SjljFrame)
    requires Shared(s) && NewIn(s, r, storage, frame)
    ensures var s' := Begin(s, r, site, storage, frame); Top(s'.sites).tls in s'.tls && Unwind(s') == s
  {
    var s' := Begin(s, r, site, storage, frame);
    var j := FindSite(s.sites, r);
    BelowOf(s.sites, Top(s'.sites));
    if j >= 0 {
      var t := s.sites[j].tls;
      assert t in s.tls;
      UpdateBack(s.tls, t, s'.tls[t]);
    } else {
      InsertAndRemove(s.tls, storage, s'.tls[storage]);
    }
  }

  lemma ApplyUnwinds(s: Thread, op: Op)
    requires s.sites != [] && Top(s.sites).tls in s.tls
    ensures var s' := Apply(s, op); Top(s'.sites).tls in s'.tls && Unwind(s') == Unwind(s)
  {
    var s' := Apply(s, op);
    BelowOf(Below(s.sites), Top(s'.sites));
    assert Unwind(s').tls == Unwind(s).tls;
  }

  /** Ending a call site takes the thread back to where it was opened. */
  lemma EndUnwinds(s: Thread)
    requires Inv(s) && s.sites != [] && Top(s.sites).tls in s.tls && Top(s.sites).tries == []
    ensures End(s) == Unwind(s)
  {
    var c := Top(s.sites);
    assert Accounted(s.sites, c.tls, s.tls[c.tls]);
    ApplyUnwinds(s, RestoreFrame);
    assert End(s).tls == Unwind(s).tls;
  }

  // ---- whole runs ------------------------------------------------------------------------------------

  /** The opening of a call site: its frame, and the storage made for it if the runtime has none yet. */
  datatype Entry = Entry(runtime: Runtime, site: CallSite, storage: Tls, frame: SjljFrame)

  datatype Event =
    | Open(entry: Entry)
    | Act(op: Op)
    | Close

  /** The event can happen, with at least `d` call sites left alone. */
  ghost predicate Happens(s: Thread, e: Event, d: nat) {
    match e
    case Open(n) => NewIn(s, n.runtime, n.storage, n.frame)
    case Act(op) => |s.sites| > d && Top(s.sites).tls in s.tls && Enabled(s, op)
    case Close => |s.sites| > d && Top(s.sites).tls in s.tls && Top(s.sites).tries == []
  }

  ghost function After(s: Thread, e: Event, d: nat): Thread
    requires Inv(s) && Happens(s, e, d)
  {
    match e
    case Open(n) => Begin(s, n.runtime, n.site, n.storage, n.frame)
    case Act(op) => Apply(s, op)
    case Close => End(s)
  }

  lemma AfterKeepsInv(s: Thread, e: Event, d: nat)
    requires Inv(s) && Happens(s, e, d)
    ensures Inv(After(s, e, d))
  {
    match e
    case Open(n) => BeginKeepsInv(s, n.runtime, n.site, n.storage, n.frame);
    case Act(op) => ApplyKeepsInv(s, op);
    case Close => EndKeepsInv(s);
  }

  /** `s'` is reached from `s` by the events, never with fewer than `d` call sites. */
  ghost predicate Run(s: Thread, es: seq<Event>, s': Thread, d: nat)
    requires Inv(s)
    decreases |es|
  {
    if es == [] then s == s'
    else
      && Happens(s, es[0], d)
      && (AfterKeepsInv(s, es[0], d); Run(After(s, es[0], d), es[1..], s', d))
  }

  /** The thread as it was when it had `d` call sites, from what the later ones saved. */
  ghost function UnwindTo(s: Thread, d: nat): Thread
    requires Shared(s) && Nested(s.sites)
    decreases |s.sites|
  {
    if |s.sites| <= d then s
    else UnwindShared(s); UnwindTo(Unwind(s), d)
  }

  lemma UnwindShared(s: Thread)
    requires Shared(s) && Nested(s.sites) && s.sites != []
    ensures Top(s.sites).tls in s.tls && Shared(Unwind(s)) && Nested(Unwind(s).sites)
  {
    UninitShared(s);
    NestedBelow(s.sites);
    assert Unwind(s).tls.Keys == Uninit(s).tls.Keys;
  }

  lemma AfterUnwinds(s: Thread, e: Event, d: nat)
    requires Inv(s) && Happens(s, e, d) && |s.sites| >= d
    ensures Inv(After(s, e, d)) && |After(s, e, d).sites| >= d
    ensures UnwindTo(After(s, e, d), d) == UnwindTo(s, d)
  {
    AfterKeepsInv(s, e, d);
    match e
    case Open(n) => BeginUnwinds(s, n.runtime, n.site, n.storage, n.frame);
    case Act(op) => ApplyUnwinds(s, op);
    case Close => EndUnwinds(s);
  }

  /** Nothing that happens above the first `d` call sites changes what they will be taken back to. */
  lemma {:induction false} RunUnwinds(s: Thread, es: seq<Event>, s': Thread, d: nat)
    requires Inv(s) && |s.sites| >= d && Run(s, es, s', d)
    ensures Inv(s') && |s'.sites| >= d && UnwindTo(s', d) == UnwindTo(s, d)
    decreases |es|
  {
    if es != [] {
      AfterUnwinds(s, es[0], d);
      RunUnwinds(After(s, es[0], d), es[1..], s', d);
    }
  }

  /**
   Recovery: whatever happens between the opening of a call site and its end, throws and
   nested call sites of any runtimes included, the thread is then as it was before.
   */
  lemma CallSiteLeavesNoTrace(s: Thread, es: seq<Event>, s': Thread)
    requires Inv(s) && Run(s, es, s', |s.sites|) && |s'.sites| == |s.sites|
    ensures s' == s
  {
    RunUnwinds(s, es, s', |s.sites|);
  }

  // ---- where a throw lands -----------------------------------------------------------------------------

  /** The frame of the last try scope open on `t`, or of a later call site on `t` that has not restored its frame yet. */
  function TopFrame(sites: seq<Site>, t: Tls): SjljFrame?
    decreases |sites|
  {
    if sites == [] then null
    else if Top(sites).tls == t && Top(sites).tries != [] then LastTry(Top(sites).tries).frame
    else if Top(sites).tls == t && !Top(sites).restored then Top(sites).frame
    else TopFrame(Below(sites), t)
  }

  lemma {:induction false} SjljIsTopFrame(sites: seq<Site>, t: Tls, v: TlsVal)
    requires Accounted(sites, t, v)
    ensures v.sjlj == TopFrame(sites, t)
    decreases |sites|
  {
    if sites != [] {
      var c := Top(sites);
      if c.tls != t {
        SjljIsTopFrame(Below(sites), t, v);
      } else {
        SjljIsTopFrame(Below(sites), t, TlsVal(c.noCollect, c.wait, c.prevFrame, c.dynamicPrev));
      }
    }
  }

  lemma {:induction false} TopFrameIsLive(sites: seq<Site>, t: Tls)
    ensures TopFrame(sites, t) == null || exists i :: 0 <= i < |sites| && TopFrame(sites, t) in FramesOf(sites[i])
    decreases |sites|
  {
    if sites != [] {
      var below, c := Below(sites), Top(sites);
      if c.tls == t && (c.tries != [] || !c.restored) {
        assert TopFrame(sites, t) in FramesOf(sites[|sites| - 1]);
      } else {
        TopFrameIsLive(below, t);
        if TopFrame(below, t) != null {
          var i :| 0 <= i < |below| && TopFrame(below, t) in FramesOf(below[i]);
          assert TopFrame(below, t) in FramesOf(sites[i]);
        }
      }
    }
  }

  /** `setSjljFrame`: in the current storage, or outside any call site in the thread's slot. */
  function SjljOf(s: Thread): SjljFrame?
    requires s.sites != [] ==> Top(s.sites).tls in s.tls
  {
    if s.sites == [] then s.external else s.tls[Top(s.sites).tls].sjlj
  }

  /** Setting a frame again returns the one set before, outside call sites too. */
  lemma SetFrameReturnsLast(s: Thread, frame: SjljFrame?)
    requires s.sites != [] ==> Top(s.sites).tls in s.tls
    ensures SetFrame(s, frame).sites == s.sites && SjljOf(SetFrame(s, frame)) == frame
    ensures SetFrame(SetFrame(s, frame), SjljOf(s)) == s
  {
    if s.sites != [] {
      var t := Top(s.sites).tls;
      UpdateBack(s.tls, t, s.tls[t].(sjlj := frame));
    }
  }

  /** `dynamicThrow`: the frame of the current storage, or else the external one. */
  function ThrowTarget(s: Thread): SjljFrame?
    requires s.sites != [] && Top(s.sites).tls in s.tls
  {
    if SjljOf(s) != null then SjljOf(s) else s.external
  }

  /**
   A throw lands in the thread's innermost call site exactly as long as no try scope is open in it
   and it has not restored its frame.
   */
  lemma ThrowLandsInnermost(s: Thread)
    requires Inv(s) && s.sites != [] && Top(s.sites).tls in s.tls
    ensures ThrowTarget(s) == Top(s.sites).frame <==> Top(s.sites).tries == [] && !Top(s.sites).restored
  {
    var c := Top(s.sites);
    assert Accounted(s.sites, c.tls, s.tls[c.tls]);
    SjljIsTopFrame(s.sites, c.tls, s.tls[c.tls]);
    TopFrameIsLive(Below(s.sites), c.tls);
    assert OwnFramesDistinct(s.sites[|s.sites| - 1]);
    if c.restored {
      forall i | 0 <= i < |Below(s.sites)| ensures c.frame !in FramesOf(Below(s.sites)[i]) {
        assert FramesOf(s.sites[i]) !! FramesOf(s.sites[|s.sites| - 1]);
        assert c.frame in FramesOf(s.sites[|s.sites| - 1]);
      }
      assert s.external !in FramesOf(s.sites[|s.sites| - 1]);
    }
  }

  /**
   Where it lands in every case: in the try scope opened last, in the call site, or once that has
   restored its frame where a throw from the call site before it on the same storage would, and
   outside all of these at the frame set there.
   */
  lemma ThrowLands(s: Thread)
    requires Inv(s) && s.sites != [] && Top(s.sites).tls in s.tls
    ensures var c := Top(s.sites);
            ThrowTarget(s) ==
            if c.tries != [] then LastTry(c.tries).frame
            else if !c.restored then c.frame
            else if TopFrame(Below(s.sites), c.tls) != null then TopFrame(Below(s.sites), c.tls)
            else s.external
  {
    FrameOfRuntime(s, Top(s.sites).tls);
  }

  /** The slot holds each runtime's innermost frame, whatever other runtimes' call sites lie above. */
  lemma FrameOfRuntime(s: Thread, t: Tls)
    requires Inv(s) && t in s.tls
    ensures s.tls[t].sjlj == TopFrame(s.sites, t)
  {
    SjljIsTopFrame(s.sites, t, s.tls[t]);
  }

  lemma TopFrameSkips(sites: seq<Site>, c1: Site, c2: Site)
    requires c1.tls != c2.tls && c2.restored && c2.tries == []
    ensures TopFrame(sites + [c1] + [c2], c2.tls) == TopFrame(sites, c2.tls)
  {
    BelowOf(sites + [c1], c2);
    BelowOf(sites, c1);
  }

  /** Another runtime's call site, and on top of it one of the current runtime again. */
  lemma NestsUnder(s: Thread, middle: Entry, inner: Entry, d: nat)
    requires Inv(s) && s.sites != [] && Top(s.sites).tls.runtime == inner.runtime != middle.runtime
    requires Happens(s, Open(middle), d) && d <= |s.sites|
    ensures Inv(After(s, Open(middle), d))
    ensures Happens(After(s, Open(middle), d), Open(inner), d) ==>
              var s2 := After(After(s, Open(middle), d), Open(inner), d);
              && Inv(s2) && |s2.sites| == |s.sites| + 2 && s2.sites[..|s.sites|] == s.sites
              && s2.sites[|s.sites|].site == middle.site && Top(s2.sites).site == inner.site
              && s2.sites[|s.sites|].tls.runtime == middle.runtime && Top(s2.sites).tls == Top(s.sites).tls
              && Top(s2.sites).tls in s2.tls && Happens(s2, Act(RestoreFrame), d)
  {
    hide Nested, AllAccounted, AllAlternate, DistinctFrames, OnePerRuntime, OnChain;
    BeginKeepsInv(s, middle.runtime, middle.site, middle.storage, middle.frame);
    var s1 := After(s, Open(middle), d);
    if Happens(s1, Open(inner), d) {
      BelowOf(s.sites, Top(s1.sites));
      FindBelow(s1.sites, inner.runtime);
      FindBelow(s.sites, inner.runtime);
      BeginKeepsInv(s1, inner.runtime, inner.site, inner.storage, inner.frame);
    }
  }

  /** With its frame restored, the innermost call site is passed over, and so is one of another runtime below it. */
  lemma RestoredThrowSkips(s: Thread, n: nat, d: nat)
    requires Inv(s) && 0 < n && |s.sites| == n + 2 && Happens(s, Act(RestoreFrame), d)
    requires !s.sites[n - 1].restored && s.sites[n].tls != Top(s.sites).tls == s.sites[n - 1].tls
    ensures var s' := After(s, Act(RestoreFrame), d);
            && Inv(s') && |s'.sites| == n + 2 && s'.sites[..n + 1] == s.sites[..n + 1]
            && Top(s'.sites).site == Top(s.sites).site
            && Top(s'.sites).tls in s'.tls
            && ThrowTarget(s') == SlotOf(s.sites[n - 1].tries, s.sites[n - 1].frame)
  {
    hide Inv, Apply, TopFrame, ThrowTarget;
    var s' := After(s, Act(RestoreFrame), d);
    AfterKeepsInv(s, Act(RestoreFrame), d);
    RestoreKeepsSites(s, n);
    TopFrameSkips(s.sites[..n], s.sites[n], Top(s'.sites));
    TopFrameOfTop(s.sites[..n]);
    FrameOfRuntime(s', Top(s.sites).tls);
    TargetInStorage(s');
  }

  lemma RestoreKeepsSites(s: Thread, n: nat)
    requires |s.sites| == n + 2 && Top(s.sites).tls in s.tls
    ensures var s' := Apply(s, RestoreFrame);
            && |s'.sites| == n + 2 && s'.sites[..n + 1] == s.sites[..n + 1]
            && s'.sites == s.sites[..n] + [s.sites[n]] + [Top(s'.sites)]
            && Top(s'.sites).site == Top(s.sites).site && Top(s'.sites).restored
            && Top(s'.sites).tls == Top(s.sites).tls && Top(s'.sites).tls in s'.tls
            && Top(s'.sites).tries == Top(s.sites).tries
  {
  }

  lemma TopFrameOfTop(sites: seq<Site>)
    requires sites != [] && !Top(sites).restored
    ensures TopFrame(sites, Top(sites).tls) == SlotOf(Top(sites).tries, Top(sites).frame)
  {
  }

  lemma TargetInStorage(s: Thread)
    requires s.sites != [] && Top(s.sites).tls in s.tls && s.tls[Top(s.sites).tls].sjlj != null
    ensures ThrowTarget(s) == s.tls[Top(s.sites).tls].sjlj
  {
  }

  lemma RunMore(s: Thread, e: Event, rest: seq<Event>, s': Thread, d: nat)
    requires Inv(s) && Happens(s, e, d)
    requires Inv(After(s, e, d)) && Run(After(s, e, d), rest, s', d)
    ensures Run(s, [e] + rest, s', d)
  {
    assert ([e] + rest)[1..] == rest;
  }

  /** After these events a throw passes over the call site opened in between, which is still live. */
  ghost function Escape(middle: Entry, inner: Entry): seq<Event> {
    [Open(middle)] + ([Open(inner)] + ([Act(RestoreFrame)] + []))
  }

  lemma EscapeRuns(s: Thread, middle: Entry, inner: Entry, d: nat)
    requires Inv(s) && Happens(s, Open(middle), d)
    requires var s1 := After(s, Open(middle), d);
             Inv(s1) && Happens(s1, Open(inner), d) &&
             var s2 := After(s1, Open(inner), d);
             Inv(s2) && Happens(s2, Act(RestoreFrame), d) && Inv(After(s2, Act(RestoreFrame), d))
    ensures var s2 := After(After(s, Open(middle), d), Open(inner), d);
            Run(s, Escape(middle, inner), After(s2, Act(RestoreFrame), d), d)
  {
    hide Inv, Happens, After;
    var s1 := After(s, Open(middle), d);
    var s2 := After(s1, Open(inner), d);
    var s' := After(s2, Act(RestoreFrame), d);
    RunMore(s2, Act(RestoreFrame), [], s', d);
    RunMore(s1, Open(inner), [Act(RestoreFrame)] + [], s', d);
    RunMore(s, Open(middle), [Open(inner)] + ([Act(RestoreFrame)] + []), s', d);
  }

  /**
   Otherwise it lands further out: with another runtime's call site in between, a throw from a
   call site that has restored its frame passes over that one too.
   */
  lemma ThrowEscapes(s: Thread, middle: Entry, inner: Entry, d: nat) returns (s': Thread)
    requires Inv(s) && s.sites != [] && !Top(s.sites).restored && d <= |s.sites|
    requires Top(s.sites).tls.runtime == inner.runtime != middle.runtime
    requires Happens(s, Open(middle), d) && Inv(After(s, Open(middle), d))
    requires Happens(After(s, Open(middle), d), Open(inner), d)
    ensures Run(s, Escape(middle, inner), s', d) && Inv(s')
    ensures |s'.sites| == |s.sites| + 2 && s'.sites[..|s.sites|] == s.sites
    ensures s'.sites[|s.sites|].site == middle.site && Top(s'.sites).site == inner.site
    ensures Top(s'.sites).tls in s'.tls && ThrowTarget(s') == SlotOf(Top(s.sites).tries, Top(s.sites).frame)
  {
    hide Inv, Happens, After, Run, ThrowTarget;
    NestsUnder(s, middle, inner, d);
    var s2, n := After(After(s, Open(middle), d), Open(inner), d), |s.sites|;
    assert s2.sites[n - 1] == s2.sites[..n][n - 1] == Top(s.sites);
    RestoredThrowSkips(s2, n, d);
    s' := After(s2, Act(RestoreFrame), d);
    assert s'.sites[..n] == s'.sites[..n + 1][..n] == s2.sites[..n + 1][..n] == s2.sites[..n];
    assert s'.sites[n] == s'.sites[..n + 1][n] == s2.sites[..n + 1][n] == s2.sites[n];
    EscapeRuns(s, middle, inner, d);
  }

  /** A thread that is in no runtime. */
  function Outside(): Thread {
    Thread([], map[], null)
  }

  /** A thread with one call site. */
  ghost function OneSite(c: Site, v: TlsVal): Thread {
    Thread([c], map[c.tls := v], null)
  }

  /** The thread with the call site opened. */
  ghost function Outermost(n: Entry): Thread {
    OneSite(Site(n.site, n.storage, 0, 0, 0, NoFrame, n.frame, null, false, false, []),
            TlsVal(0, 0, n.frame, DynamicFrame(n.site, NoFrame)))
  }

  lemma OneSiteStep(c: Site, v: TlsVal, op: Op)
    requires Inv(OneSite(c, v)) && Enabled(OneSite(c, v), op)
    ensures Happens(OneSite(c, v), Act(op), 0) && Inv(After(OneSite(c, v), Act(op), 0))
    ensures After(OneSite(c, v), Act(op), 0) == OneSite(ApplySite(c, v, op), ApplyTls(v, op, c))
  {
    hide Inv, Enabled, ApplySite, ApplyTls;
    AfterKeepsInv(OneSite(c, v), Act(op), 0);
    OneSiteTls(c, v, op);
  }

  lemma OneSiteTls(c: Site, v: TlsVal, op: Op)
    ensures ApplySite(c, v, op).tls == c.tls
    ensures Apply(OneSite(c, v), op) == OneSite(ApplySite(c, v, op), ApplyTls(v, op, c))
  {
    assert Below([c]) + [ApplySite(c, v, op)] == [ApplySite(c, v, op)];
  }

  lemma OutsideInv()
    ensures Inv(Outside())
  {
  }

  lemma OpensOuter(n: Entry)
    requires n.storage.runtime == n.runtime
    ensures Inv(Outside()) && Happens(Outside(), Open(n), 0) && After(Outside(), Open(n), 0) == Outermost(n)
    ensures Inv(Outermost(n))
  {
    hide Inv;
    OutsideInv();
    AfterKeepsInv(Outside(), Open(n), 0);
  }

  lemma OpensMiddle(outer: Entry, middle: Entry, inner: Entry)
    requires outer.runtime == inner.runtime != middle.runtime
    requires outer.storage.runtime == outer.runtime && middle.storage.runtime == middle.runtime
    requires outer.frame != middle.frame && outer.frame != inner.frame && middle.frame != inner.frame
    requires Inv(Outermost(outer))
    ensures var s := Outermost(outer);
            && Happens(s, Open(middle), 0) && Inv(After(s, Open(middle), 0))
            && Happens(After(s, Open(middle), 0), Open(inner), 0)
  {
    hide Inv;
    var s := Outermost(outer);
    FindIs(s.sites, middle.runtime, -1);
    AfterKeepsInv(s, Open(middle), 0);
    var sites := After(s, Open(middle), 0).sites;
    assert |sites| == 2 && sites[0] == s.sites[0];
    assert sites[0].tls.runtime == inner.runtime;
  }

  /** The current call site, which `uninitializeCallSite` asserts to be the one it ends. */
  ghost predicate IsCurrent(s: Thread, site: CallSite) {
    s.sites != [] && Top(s.sites).site == site
  }

  /**
   A run that ends so: three call sites of runtimes A, B and A, the last with its frame restored.
   A throw then lands in the first, whose end finds another call site current.
   */
  lemma ThrowAfterRestoreEscapes(outer: Entry, middle: Entry, inner: Entry) returns (s: Thread)
    requires outer.runtime == inner.runtime != middle.runtime
    requires outer.storage.runtime == outer.runtime && middle.storage.runtime == middle.runtime
    requires outer.site != middle.site && outer.site != inner.site && middle.site != inner.site
    requires outer.frame != middle.frame && outer.frame != inner.frame && middle.frame != inner.frame
    ensures Inv(Outside()) && Run(Outside(), [Open(outer)] + Escape(middle, inner), s, 0)
    ensures |s.sites| == 3
    ensures s.sites[0].site == outer.site && s.sites[1].site == middle.site && s.sites[2].site == inner.site
    ensures Top(s.sites).tls in s.tls && ThrowTarget(s) == s.sites[0].frame
    ensures !IsCurrent(s, s.sites[0].site)
  {
    hide Inv, Happens, After, Run, ThrowTarget, Escape;
    OpensOuter(outer);
    OpensMiddle(outer, middle, inner);
    var s0 := Outermost(outer);
    s := ThrowEscapes(s0, middle, inner, 0);
    assert s.sites[0] == s.sites[..1][0] == s0.sites[0];
    RunMore(Outside(), Open(outer), Escape(middle, inner), s, 0);
  }

  /** A run with a try scope open: the call site's frame is not restored, and a throw does not land there. */
  lemma ThrowInTryIsCaught(outer: Entry, frame: SjljFrame) returns (s: Thread)
    requires outer.storage.runtime == outer.runtime && frame != outer.frame
    ensures Inv(Outside()) && Run(Outside(), [Open(outer)] + ([Act(OpenTry(frame))] + []), s, 0)
    ensures s.sites != [] && Top(s.sites).tls in s.tls && !Top(s.sites).restored
    ensures ThrowTarget(s) == frame != Top(s.sites).frame
  {
    hide Inv, Happens, After, Run, Apply;
    OpensOuter(outer);
    var s0 := Outermost(outer);
    var c, v := s0.sites[0], s0.tls[s0.sites[0].tls];
    OneSiteStep(c, v, OpenTry(frame));
    s := OneSite(ApplySite(c, v, OpenTry(frame)), ApplyTls(v, OpenTry(frame), c));
    RunNone(s, 0);
    RunMore(s0, Act(OpenTry(frame)), [], s, 0);
    RunMore(Outside(), Open(outer), [Act(OpenTry(frame))] + [], s, 0);
  }

  lemma RunNone(s: Thread, d: nat)
    requires Inv(s)
    ensures Run(s, [], s, d)
  {
  }

  // ---- what the source asserts ---------------------------------------------------------------------------

  /** The frame found at the first restore is the call site's own exactly if no try scope is open. */
  lemma RestoreFindsOwnFrame(s: Thread)
    requires Inv(s) && s.sites != [] && Top(s.sites).tls in s.tls && !Top(s.sites).restored
    ensures SjljOf(s) == Top(s.sites).frame <==> Top(s.sites).tries == []
  {
    assert Accounted(s.sites, Top(s.sites).tls, s.tls[Top(s.sites).tls]);
    assert OwnFramesDistinct(s.sites[|s.sites| - 1]);
  }

  /** The assertions of `uninitializeCallSite` about the levels and the shadow stack. */
  ghost predicate UninitAsserts(s: Thread)
    requires s.sites != [] && Top(s.sites).tls in s.tls
  {
    var c := Top(s.sites);
    var v := s.tls[c.tls];
    && c.wait == v.wait
    && (c.noCollect == v.noCollect || (c.thrown && c.noCollect < v.noCollect))
    && (v.shadow == DynamicFrame(c.site, c.dynamicPrev) ||
        (v.shadow == c.dynamicPrev && MapOf(c.dynamicPrev) == DynamicMap) ||
        c.thrown)
    && (c.nestLevel == 0 ==> c.wait == 0 && c.noCollect == 0 && c.dynamicPrev == NoFrame)
  }

  lemma {:induction false} NothingAccounted(sites: seq<Site>, t: Tls, v: TlsVal)
    requires Accounted(sites, t, v) && !OnChain(sites, t)
    ensures v == TlsVal(0, 0, null, NoFrame)
    decreases |sites|
  {
    if sites != [] {
      NothingAccounted(Below(sites), t, v);
    }
  }

  /** An outermost call site starts from nothing. */
  lemma OuterSavesNothing(s: Thread)
    requires Inv(s) && s.sites != [] && Top(s.sites).tls in s.tls && Top(s.sites).nestLevel == 0
    ensures var c := Top(s.sites); c.wait == 0 && c.noCollect == 0 && c.dynamicPrev == NoFrame
  {
    var c := Top(s.sites);
    assert Accounted(s.sites, c.tls, s.tls[c.tls]);
    OuterOfRuntime(s.sites);
    if OnChain(Below(s.sites), c.tls) {
      ChainFound(Below(s.sites), c.tls);
    } else {
      NothingAccounted(Below(s.sites), c.tls, TlsVal(c.noCollect, c.wait, c.prevFrame, c.dynamicPrev));
    }
  }

  lemma BaseMeetsAssert(c: Site, x: Shadow)
    requires Extends(x, BaseOf(c)) && Alternating(x) && (c.nestLevel == 0 ==> c.dynamicPrev == NoFrame)
    ensures x == DynamicFrame(c.site, c.dynamicPrev) || (x == c.dynamicPrev && MapOf(c.dynamicPrev) == DynamicMap) <==>
            x == BaseOf(c)
  {
    ExtendsDepth(x, BaseOf(c));
  }

  /** The innermost call site and its storage, as the invariant has them. */
  lemma TopHolds(s: Thread)
    requires Inv(s) && s.sites != [] && Top(s.sites).tls in s.tls
    ensures Holds(Top(s.sites), s.tls[Top(s.sites).tls]) && Alternating(s.tls[Top(s.sites).tls].shadow)
  {
    assert Accounted(s.sites, Top(s.sites).tls, s.tls[Top(s.sites).tls]);
  }

  /** A call site that code is done with meets the assertions exactly if it was left balanced, or by a throw. */
  lemma MayEndMeetsAsserts(s: Thread)
    requires Inv(s) && s.sites != [] && Top(s.sites).tls in s.tls && Top(s.sites).tries == []
    ensures UninitAsserts(Apply(s, RestoreFrame)) <==> MayEnd(s)
  {
    hide Inv, Apply, BaseOf, Extends;
    var c := Top(s.sites);
    TopHolds(s);
    if c.nestLevel == 0 {
      OuterSavesNothing(s);
    }
    BaseMeetsAssert(c, s.tls[c.tls].shadow);
    ApplyIs(s, RestoreFrame);
  }

  /** A caught throw sets the frame below and drops frames from the shadow stack, but leaves the levels as they are. */
  lemma CatchSetsFrameBelow(s: Thread)
    requires Inv(s) && s.sites != [] && Top(s.sites).tls in s.tls && Enabled(s, Catch)
    ensures var s', c := Apply(s, Catch), Top(s.sites);
            && c.tls in s'.tls && s'.tls[c.tls].sjlj == SlotOf(OtherTries(c.tries), OwnFrame(c))
            && Extends(s'.tls[c.tls].shadow, BaseOf(c)) && Depth(s'.tls[c.tls].shadow) <= Depth(s.tls[c.tls].shadow)
            && s'.tls[c.tls].noCollect == s.tls[c.tls].noCollect && s'.tls[c.tls].wait == s.tls[c.tls].wait
  {
    assert Accounted(s.sites, Top(s.sites).tls, s.tls[Top(s.sites).tls]);
  }

  /** A throw out of a no-collect region that compiled code catches. */
  ghost function CaughtInRegion(frame: SjljFrame): seq<Event> {
    [Act(OpenTry(frame))] + ([Act(RaiseNoCollect)] + ([Act(Catch)] + []))
  }

  /** After it the call site fails the assertion on the level, although its body goes on to its end. */
  lemma CaughtThrowFailsAsserts(outer: Entry, frame: SjljFrame) returns (s: Thread)
    requires outer.storage.runtime == outer.runtime && frame != outer.frame
    ensures Inv(Outside()) && Run(Outside(), [Open(outer)] + CaughtInRegion(frame), s, 0)
    ensures s.sites != [] && Top(s.sites).tls in s.tls && Top(s.sites).tries == [] && !Top(s.sites).thrown
    ensures !UninitAsserts(Apply(s, RestoreFrame))
  {
    hide Inv, Happens, After, Run, UninitAsserts, Apply, Extends, BaseOf;
    OpensOuter(outer);
    var s0 := Outermost(outer);
    var c0, v0 := s0.sites[0], s0.tls[s0.sites[0].tls];
    OneSiteStep(c0, v0, OpenTry(frame));
    var c1, v1 := ApplySite(c0, v0, OpenTry(frame)), ApplyTls(v0, OpenTry(frame), c0);
    OneSiteStep(c1, v1, RaiseNoCollect);
    var c2, v2 := ApplySite(c1, v1, RaiseNoCollect), ApplyTls(v1, RaiseNoCollect, c1);
    OneSiteStep(c2, v2, Catch);
    s := OneSite(ApplySite(c2, v2, Catch), ApplyTls(v2, Catch, c2));
    MayEndMeetsAsserts(s);
    RunNone(s, 0);
    RunMore(OneSite(c2, v2), Act(Catch), [], s, 0);
    RunMore(OneSite(c1, v1), Act(RaiseNoCollect), [Act(Catch)] + [], s, 0);
    RunMore(s0, Act(OpenTry(frame)), [Act(RaiseNoCollect)] + ([Act(Catch)] + []), s, 0);
    RunMore(Outside(), Open(outer), CaughtInRegion(frame), s, 0);
  }

  /** The storage goes with the outermost call site of its runtime, and with no other. */
  lemma StorageFreedWithOutermost(s: Thread)
    requires Inv(s) && s.sites != [] && Top(s.sites).tls in s.tls
    ensures Top(s.sites).tls !in End(s).tls <==> FindSite(Below(s.sites), Top(s.sites).tls.runtime) < 0
    ensures Top(s.sites).tls !in End(s).tls <==> CountOf(s.sites, Top(s.sites).tls.runtime) == 1
  {
    hide Inv, Shared, AllAccounted, AllAlternate, DistinctFrames;
    EndFrees(s);
    NestedSites(s);
    OuterOfRuntime(s.sites);
    NestedBelow(s.sites);
    CountFromFind(Below(s.sites), Top(s.sites).tls.runtime);
  }

  lemma NestedSites(s: Thread)
    requires Inv(s)
    ensures Nested(s.sites)
  {
  }

  lemma EndFrees(s: Thread)
    requires s.sites != [] && Top(s.sites).tls in s.tls
    ensures Top(s.sites).tls !in End(s).tls <==> Top(s.sites).nestLevel == 0
  {
    hide ApplyTls;
    TopOfApply(s, RestoreFrame);
  }
}
