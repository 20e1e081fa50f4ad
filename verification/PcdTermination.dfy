/**
 The whole update ends: from the moment the network core is switched on, every run in which both cores keep moving comes
 to the point where `pcd_network_core_update` returns, whatever the drivers answer.
 */
module PcdTermination {
  import opened Bytes
  import opened PcdProtocol
  import opened PcdSafety
  import opened PcdProgress
  import opened Fairness

  /** One step of a core, errors included. */
  ghost predicate AnyStepOf(c: Config, s: State, s': State, core: Core)
    requires c.Fits()
  {
    match core
    case App => s' == AppStep(c, s)
    case Net => NetNext(c, s, s')
  }

  /** What the application core has left to do once the network core has halted. */
  function AppLeft(s: State): nat {
    match s.app
    case PollWritten => 6000
    case UpdLen => 5500
    case UpdCopy(k) => 10 + if k < PAGE then PAGE - k else 0
    case UpdMoved => 5
    case UpdWritten => 4
    case UpdAvail => 3
    case PollMagic => 2
    case _ => 0
  }

  /** What is left of the update; in the copy loop that is what `PcdProgress` counts. */
  function Left(c: Config, s: State): int {
    match s.net
    case Off => 0
    case NormalBoot => 0
    case Halted => AppLeft(s)
    case SetDone => 7001
    case SetFail => 7001
    case Validate => 7002
    case EndMemset(k) => 7003 + if k < PAGE then PAGE - k else 0
    case ErrMemset(k) => 7003 + if k < PAGE then PAGE - k else 0
    case IntWrite(k) => 20000 + if k < |c.image| then |c.image| - k else 0
    case StreamInit => Before(c) + 1
    case CopyMagic => Before(c) + 2
    case PreValidate => Before(c) + 3
    case CheckMagic => Before(c) + 4
    case Protect => Before(c) + 5
    case _ => 20000 + Rank(c, s)
  }

  /** More than any copy has left. */
  function Before(c: Config): nat {
    20000 + 30000 * (|c.image| + 1)
  }

  /** The core that is waited for. */
  function Waits(c: Config, s: State): Core {
    if s.net.Halted? then App else if InLoop(s.net) then Helpful(c, s) else Net
  }

  /** The network core is on, the update has not returned. */
  ghost predicate Running(c: Config, s: State)
    requires c.Fits()
  {
    Inv(c, s) && !s.net.Off? && !s.app.Returned?
  }

  lemma LoopIsCopying(c: Config, s: State)
    requires c.Fits() && Running(c, s) && InLoop(s.net)
    ensures Copying(c, s)
  {}

  lemma StaysRunning(c: Config, s: State, s': State, core: Core)
    requires c.Fits() && Running(c, s) && AnyStepOf(c, s, s', core)
    ensures Inv(c, s') && !s'.net.Off?
  {
    if core.App? {
      AppKeepsInv(c, s);
      AppLeavesOn(c, s);
    } else {
      NetKeepsInv(c, s, s');
      NetStepHasFrame(c, s, s');
    }
  }

  lemma AppLeavesOn(c: Config, s: State)
    requires c.Fits() && InvPcs(c, s) && !s.net.Off?
    ensures AppStep(c, s).net == s.net
  {}

  // ---------------------------------------------------------------- outside the loop

  /** After the network core has halted only the application core has something to do, and it comes to an end. */
  lemma HaltedAppGains(c: Config, s: State)
    requires c.Fits() && InvPcs(c, s) && InvMagic(c, s) && |s.window| == PAGE && s.net.Halted? && !s.app.Returned?
    ensures AppStep(c, s).net.Halted? && AppLeft(AppStep(c, s)) < AppLeft(s)
  {}

  lemma NetGains(c: Config, s: State, s': State)
    requires c.Fits() && |s.window| == PAGE && NetNext(c, s, s')
    requires !s.net.Off? && !s.net.Halted? && !s.net.NormalBoot? && !InLoop(s.net) && !InLoop(s'.net)
    requires s.net.CheckMagic? ==> s.magic == MAGIC_COPY
    ensures 0 <= Left(c, s') < Left(c, s)
  {
    hide NetOk, NetErr, Left;
    if NetErr(s, s') {
      ErrorGains(c, s, s');
    } else if Starting(s.net) {
      StartingGains(c, s, s');
    } else {
      FinishingGains(c, s, s');
    }
  }

  lemma ErrorGains(c: Config, s: State, s': State)
    requires NetErr(s, s') && !InLoop(s.net)
    ensures 0 <= Left(c, s') < Left(c, s)
  {}

  lemma StartingGains(c: Config, s: State, s': State)
    requires NetOk(c, s, s') && Starting(s.net) && !InLoop(s'.net) && (s.net.CheckMagic? ==> s.magic == MAGIC_COPY)
    ensures 0 <= Left(c, s') < Left(c, s)
  {}

  lemma FinishingGains(c: Config, s: State, s': State)
    requires |s.window| == PAGE && NetOk(c, s, s') && !Starting(s.net) && !InLoop(s.net)
    requires !s.net.Halted? && !s.net.NormalBoot?
    ensures 0 <= Left(c, s') < Left(c, s)
  {}

  /** Leaving the loop, by its guard or by an error. */
  lemma NetLeavesLoop(c: Config, s: State, s': State)
    requires NetNext(c, s, s') && InLoop(s.net) && !InLoop(s'.net) && Rank(c, s) >= 0
    ensures 0 <= Left(c, s') < Left(c, s)
  {}

  lemma NetEntersLoop(c: Config, s: State, s': State)
    requires c.Fits() && NetNext(c, s, s') && !InLoop(s.net) && InLoop(s'.net) && Copying(c, s')
    ensures 0 <= Left(c, s') < Left(c, s)
  {
    RankBound(c, s');
    RankIsNat(c, s');
    OnlyStreamInitEnters(c, s, s');
  }

  lemma OnlyStreamInitEnters(c: Config, s: State, s': State)
    requires NetNext(c, s, s') && !InLoop(s.net) && InLoop(s'.net)
    ensures s.net.StreamInit?
  {}

  // ---------------------------------------------------------------- every step

  lemma LoopLeft(c: Config, s: State)
    requires InLoop(s.net)
    ensures Left(c, s) == 20000 + Rank(c, s) && Waits(c, s) == Helpful(c, s)
  {}

  lemma OnlyErrorsLeave(c: Config, s: State, s': State)
    requires NetNext(c, s, s') && InLoop(s'.net) && InLoop(s.net)
    ensures NetOk(c, s, s')
  {}

  lemma StepInLoop(c: Config, s: State, s': State, core: Core)
    requires c.Fits() && Copying(c, s) && InLoop(s'.net) && AnyStepOf(c, s, s', core)
    ensures 0 <= Left(c, s') && OneStep(Left(c, s), Waits(c, s), core, Left(c, s'), Waits(c, s'))
  {
    if core.Net? { OnlyErrorsLeave(c, s, s'); }
    LoopLeft(c, s);
    LoopLeft(c, s');
    StepLowersRank(c, s, s', core);
    hide Rank, Helpful, Copying, AppStep, NetOk, NetErr, Left, Waits;
    if Rank(c, s') == Rank(c, s) { IdleKeepsHelpful(c, s, s', core); }
  }

  lemma AppStepOutside(c: Config, s: State)
    requires c.Fits() && Running(c, s) && !InLoop(s.net)
    ensures var s' := AppStep(c, s);
            0 <= Left(c, s') && OneStep(Left(c, s), Waits(c, s), App, Left(c, s'), Waits(c, s'))
  {
    assert InvPcs(c, s) && InvMagic(c, s) && |s.window| == PAGE;
    AppLeavesOn(c, s);
    if s.net.Halted? {
      HaltedAppGains(c, s);
    } else {
      OutsideIsNetAlone(c, s, AppStep(c, s));
    }
  }

  lemma OutsideIsNetAlone(c: Config, s: State, s': State)
    requires s'.net == s.net && !s.net.Halted? && !InLoop(s.net)
    ensures Left(c, s') == Left(c, s) >= 0 && Waits(c, s') == Waits(c, s) == Net
  {}

  lemma NetStepOutside(c: Config, s: State, s': State)
    requires c.Fits() && Running(c, s) && NetNext(c, s, s') && Inv(c, s') && (!InLoop(s.net) || !InLoop(s'.net))
    ensures 0 <= Left(c, s') && OneStep(Left(c, s), Waits(c, s), Net, Left(c, s'), Waits(c, s'))
  {
    assert InvPcs(c, s) && InvMagic(c, s) && |s.window| == PAGE;
    if s.net.Halted? {
      HaltedNetStays(c, s, s');
    } else if InLoop(s'.net) {
      assert c.External();
      NetEntersLoop(c, s, s');
    } else if InLoop(s.net) {
      LoopIsCopying(c, s);
      RankIsNat(c, s);
      NetLeavesLoop(c, s, s');
    } else {
      NetGains(c, s, s');
    }
  }

  lemma HaltedNetStays(c: Config, s: State, s': State)
    requires NetNext(c, s, s') && s.net.Halted?
    ensures s' == s && Left(c, s) >= 0
  {}

  /** Less is left after a step of the core that is waited for, never more after any other. */
  lemma StepGains(c: Config, s: State, s': State, core: Core)
    requires c.Fits() && Running(c, s) && AnyStepOf(c, s, s', core)
    ensures Inv(c, s') && !s'.net.Off?
    ensures 0 <= Left(c, s') && OneStep(Left(c, s), Waits(c, s), core, Left(c, s'), Waits(c, s'))
  {
    StaysRunning(c, s, s', core);
    hide Inv, Left, Waits, NetOk, NetErr, Rank, Helpful;
    if InLoop(s.net) && InLoop(s'.net) {
      LoopIsCopying(c, s);
      StepInLoop(c, s, s', core);
    } else if core.App? {
      NetUntouched(c, s, s');
      AppStepOutside(c, s);
    } else {
      NetStepOutside(c, s, s');
    }
  }

  lemma NetUntouched(c: Config, s: State, s': State)
    requires c.Fits() && Running(c, s) && s' == AppStep(c, s) && (!InLoop(s.net) || !InLoop(s'.net))
    ensures !InLoop(s.net)
  {
    AppLeavesOn(c, s);
  }

  lemma LeftBound(c: Config, s: State)
    requires c.Fits() && Running(c, s)
    ensures 0 <= Left(c, s) < 30000 * (|c.image| + 2)
  {
    if InLoop(s.net) {
      LoopIsCopying(c, s);
      RankBound(c, s);
      RankIsNat(c, s);
    }
  }

  // ---------------------------------------------------------------- fair runs return

  lemma {:induction false} RunningAlong(c: Config, run: seq<State>, who: seq<Core>, i: nat)
    requires c.Fits() && |run| == |who| + 1 && i <= |who| && Running(c, run[0])
    requires forall j :: 0 <= j < |who| ==> AnyStepOf(c, run[j], run[j + 1], who[j])
    requires forall j :: 0 <= j < |run| ==> !run[j].app.Returned?
    ensures Running(c, run[i])
    decreases i
  {
    hide Inv, AppStep, NetOk, NetErr;
    if i > 0 {
      RunningAlong(c, run, who, i - 1);
      StaysRunning(c, run[i - 1], run[i], who[i - 1]);
    }
  }

  lemma UnreturnedRunIsShort(c: Config, run: seq<State>, who: seq<Core>, k: nat)
    requires c.Fits() && |run| == |who| + 1 && Running(c, run[0]) && Fair(who, k)
    requires forall i :: 0 <= i < |who| ==> AnyStepOf(c, run[i], run[i + 1], who[i])
    requires forall i :: 0 <= i < |run| ==> !run[i].app.Returned?
    ensures |who| < k * Left(c, run[0]) + k
  {
    hide Running, AnyStepOf, Left, Waits, Fair;
    var left := seq(|run|, i requires 0 <= i < |run| => Left(c, run[i]));
    var waits := seq(|run|, i requires 0 <= i < |run| => Waits(c, run[i]));
    forall i | 0 <= i < |run| ensures left[i] >= 0 {
      RunningAlong(c, run, who, i);
      LeftBound(c, run[i]);
    }
    forall i | 0 <= i < |who| ensures OneStep(left[i], waits[i], who[i], left[i + 1], waits[i + 1]) {
      RunningAlong(c, run, who, i);
      StepGains(c, run[i], run[i + 1], who[i]);
    }
    FairDescent(left, waits, who, k);
  }

  /**
   The update ends: every run from any reachable state with the network core on, driver errors included, in which each
   core moves at least once in every `k` steps, comes to a state in which the update has returned within
   `k * 30000 * (len + 2)` steps.
   */
  lemma FairRunReturns(c: Config, run: seq<State>, who: seq<Core>, k: nat)
    requires c.Fits() && |run| == |who| + 1 && Reachable(c, run[0]) && !run[0].net.Off? && Fair(who, k)
    requires forall i :: 0 <= i < |who| ==> AnyStepOf(c, run[i], run[i + 1], who[i])
    requires |who| >= k * (30000 * (|c.image| + 2))
    ensures exists i :: 0 <= i < |run| && run[i].app.Returned?
  {
    ReachableInv(c, run[0]);
    hide AnyStepOf, Left, Fair, Inv, Reachable;
    if forall i :: 0 <= i < |run| ==> !run[i].app.Returned? {
      UnreturnedRunIsShort(c, run, who, k);
      LeftBound(c, run[0]);
      Windows(k, Left(c, run[0]), 30000 * (|c.image| + 2) - 1);
      assert false;
    }
  }
}
