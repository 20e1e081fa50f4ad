/**
 The hand-off cannot get stuck, or run in circles, while the network core is in its copy loop: in every reachable state
 one of the two cores is `Helpful`, that core can move, each of its moves lowers `Rank`, no move of either core raises
 it, and a move that does not lower it leaves the same core helpful.  So a run in which both cores keep moving leaves
 the loop, after a number of steps that is known beforehand.
 */
module PcdProgress {
  import opened Bytes
  import opened PcdProtocol
  import opened PcdSafety
  import opened Fairness

  /** Everything is published and the network core is about to notice. */
  predicate AboutToExit(c: Config, s: State) {
    s.moved == |c.image| && s.net.Guard?
  }

  /** The core whose next steps bring the transfer forward; the other one is polling, or soon will be. */
  function Helpful(c: Config, s: State): Core {
    if AboutToExit(c, s) then Net
    else if InUpdate(s.app) then App
    else if s.available || s.net.SetWritten? then Net
    else App
  }

  /** How far the current chunk is, counting down. */
  function Phase(c: Config, s: State): int {
    if AboutToExit(c, s) then 0
    else match s.app
      case UpdWritten => 20002
      case UpdAvail => 20001
      case UpdLen => 5000
      case UpdCopy(k) => 2 + s.chunkLen - k
      case UpdMoved => 1
      case _ =>
        match s.net
        case LoadLen => 12000
        case ExtWrite(k, n) => 6002 + n - k
        case ClearAvail => 6001
        case SetWritten => 6000
        case _ =>
          if s.available then (if s.net.Guard? then 12002 else 12001)
          else if s.app.PollMagic? then 5002 else 5001
  }

  function Rank(c: Config, s: State): int {
    (|c.image| - s.moved) * 30000 + Phase(c, s)
  }

  /** An external transfer whose network core is in its loop. */
  ghost predicate Copying(c: Config, s: State)
    requires c.Fits()
  {
    c.External() && InLoop(s.net) && Inv(c, s)
  }

  lemma AppLowersRank(c: Config, s: State)
    requires c.Fits() && Copying(c, s)
    ensures Rank(c, AppStep(c, s)) <= Rank(c, s)
    ensures Helpful(c, s).App? ==> Rank(c, AppStep(c, s)) < Rank(c, s)
    ensures Rank(c, s) >= 0
  {
    assert InvControl(c, s) && InvLoop(c, s) && InvCount(c, s) && InvFlags(s);
    hide InvStream, InvStart, InvAfter, InvMemcpy, Published, InvExternal, Inv;
  }

  lemma NetLowersRank(c: Config, s: State, s': State)
    requires c.Fits() && Copying(c, s) && NetOk(c, s, s') && InLoop(s'.net)
    ensures Rank(c, s') <= Rank(c, s)
    ensures Helpful(c, s).Net? ==> Rank(c, s') < Rank(c, s)
  {
    assert InvControl(c, s) && InvLoop(c, s) && InvCount(c, s) && InvFlags(s);
    hide InvStream, InvStart, InvAfter, InvMemcpy, Published, InvExternal, Inv;
  }

  /** The network core is never blocked: in every copying state it has a step that is no error. */
  lemma NetCanMove(c: Config, s: State) returns (s': State)
    requires c.Fits() && Copying(c, s)
    ensures NetOk(c, s, s')
    ensures AboutToExit(c, s) ==> !InLoop(s'.net)
  {
    assert InvStream(c, s) && InvLoop(c, s) && InvCount(c, s);
    match s.net
    case Guard => s' := s.(net := if s.moved < |c.image| then CheckAvail else EndMemset(0));
    case CheckAvail => s' := s.(net := if s.available then LoadLen else Guard);
    case LoadLen => s' := s.(net := ExtWrite(0, s.chunkLen));
    case ExtWrite(k, n) =>
      if k < n {
        s' := s.(flash := s.flash[s.w := s.window[k]], w := s.w + 1, net := ExtWrite(k + 1, n));
      } else {
        s' := s.(net := ClearAvail);
      }
    case ClearAvail => s' := s.(available := false, net := SetWritten);
    case SetWritten => s' := s.(written := true, net := Guard);
  }

  /** An error-free stretch of a run that stays in the loop; `who[i]` is the core that takes step `i`. */
  ghost predicate CopyRun(c: Config, run: seq<State>, who: seq<Core>)
    requires c.Fits()
  {
    && |run| == |who| + 1
    && (forall i :: 0 <= i < |run| ==> InLoop(run[i].net))
    && (forall i :: 0 <= i < |who| ==> StepOf(c, run[i], run[i + 1], who[i]))
  }

  ghost predicate StepOf(c: Config, s: State, s': State, core: Core)
    requires c.Fits()
  {
    match core
    case App => s' == AppStep(c, s)
    case Net => NetOk(c, s, s')
  }

  function HelpfulSteps(c: Config, run: seq<State>, who: seq<Core>): nat
    requires |run| == |who| + 1
  {
    if |who| == 0 then 0
    else HelpfulSteps(c, run[..|who|], who[..|who| - 1])
         + (if Helpful(c, run[|who| - 1]) == who[|who| - 1] then 1 else 0)
  }

  lemma StepLowersRank(c: Config, s: State, s': State, core: Core)
    requires c.Fits() && Copying(c, s) && StepOf(c, s, s', core) && InLoop(s'.net)
    ensures Copying(c, s')
    ensures 0 <= Rank(c, s') <= Rank(c, s) - (if Helpful(c, s) == core then 1 else 0)
  {
    hide Inv, AppStep, NetOk, Rank, Helpful;
    NextKeepsInv(c, s, s');
    AppLowersRank(c, s);
    AppLowersRank(c, s');
    if core.Net? { NetLowersRank(c, s, s'); }
  }

  /** No run stays in the loop for more helpful steps than the rank it started from. */
  lemma {:induction false} CopyLoopIsBounded(c: Config, run: seq<State>, who: seq<Core>)
    requires c.Fits() && CopyRun(c, run, who) && Copying(c, run[0])
    ensures Copying(c, run[|who|])
    ensures HelpfulSteps(c, run, who) + Rank(c, run[|who|]) <= Rank(c, run[0])
    ensures HelpfulSteps(c, run, who) <= Rank(c, run[0])
    decreases |who|
  {
    hide Copying, Rank, Helpful, StepOf, AppStep, NetOk;
    var n := |who|;
    if n == 0 {
      RankIsNat(c, run[0]);
    } else {
      CopyLoopIsBounded(c, run[..n], who[..n - 1]);
      StepLowersRank(c, run[n - 1], run[n], who[n - 1]);
    }
  }

  lemma RankIsNat(c: Config, s: State)
    requires c.Fits() && Copying(c, s)
    ensures Rank(c, s) >= 0
  {
    AppLowersRank(c, s);
  }

  // ---------------------------------------------------------------- fair runs leave the loop

  lemma AppIdleKeepsHelpful(c: Config, s: State)
    requires c.Fits() && Copying(c, s) && Helpful(c, s).Net? && Rank(c, AppStep(c, s)) == Rank(c, s)
    ensures Helpful(c, AppStep(c, s)).Net?
  {
    assert InvControl(c, s) && InvLoop(c, s) && InvCount(c, s) && InvFlags(s);
    hide InvStream, InvStart, InvAfter, InvMemcpy, Published, InvExternal, Inv;
  }

  lemma NetIdleKeepsHelpful(c: Config, s: State, s': State)
    requires c.Fits() && Copying(c, s) && NetOk(c, s, s') && InLoop(s'.net)
    requires Helpful(c, s).App? && Rank(c, s') == Rank(c, s)
    ensures Helpful(c, s').App?
  {
    assert InvControl(c, s) && InvLoop(c, s) && InvCount(c, s) && InvFlags(s);
    hide InvStream, InvStart, InvAfter, InvMemcpy, Published, InvExternal, Inv;
  }

  /** The core that is waited for stays the same until something is gained. */
  lemma IdleKeepsHelpful(c: Config, s: State, s': State, core: Core)
    requires c.Fits() && Copying(c, s) && StepOf(c, s, s', core) && InLoop(s'.net) && Rank(c, s') == Rank(c, s)
    ensures Helpful(c, s') == Helpful(c, s) != core
  {
    StepLowersRank(c, s, s', core);
    hide Copying, AppStep, NetOk, Rank, Helpful;
    if core.App? { AppIdleKeepsHelpful(c, s); } else { NetIdleKeepsHelpful(c, s, s'); }
  }

  lemma {:induction false} CopyingAlong(c: Config, run: seq<State>, who: seq<Core>, i: nat)
    requires c.Fits() && CopyRun(c, run, who) && Copying(c, run[0]) && i <= |who|
    ensures Copying(c, run[i])
    decreases i
  {
    hide Copying, Rank, Helpful, StepOf, AppStep, NetOk;
    if i > 0 {
      CopyingAlong(c, run, who, i - 1);
      StepLowersRank(c, run[i - 1], run[i], who[i - 1]);
    }
  }

  /** A fair run inside the loop is shorter than `k` times the rank it starts from, plus `k`. */
  lemma FairRunIsShort(c: Config, run: seq<State>, who: seq<Core>, k: nat)
    requires c.Fits() && CopyRun(c, run, who) && Copying(c, run[0]) && Fair(who, k)
    ensures Rank(c, run[0]) >= 0 && |who| < k * Rank(c, run[0]) + k
  {
    hide Copying, Rank, Helpful, StepOf, AppStep, NetOk, Fair;
    var left := seq(|run|, i requires 0 <= i < |run| => Rank(c, run[i]));
    var waits := seq(|run|, i requires 0 <= i < |run| => Helpful(c, run[i]));
    forall i | 0 <= i < |run| ensures left[i] >= 0 {
      CopyingAlong(c, run, who, i);
      RankIsNat(c, run[i]);
    }
    forall i | 0 <= i < |who| ensures OneStep(left[i], waits[i], who[i], left[i + 1], waits[i + 1]) {
      CopyingAlong(c, run, who, i);
      StepLowersRank(c, run[i], run[i + 1], who[i]);
      if left[i + 1] == left[i] { IdleKeepsHelpful(c, run[i], run[i + 1], who[i]); }
    }
    FairDescent(left, waits, who, k);
  }

  /** The bound in terms of the image alone. */
  lemma RankBound(c: Config, s: State)
    requires c.Fits() && Copying(c, s)
    ensures Rank(c, s) < 30000 * (|c.image| + 1)
  {
    assert InvControl(c, s) && InvLoop(c, s) && InvCount(c, s) && InvFlags(s);
    hide InvStream, InvStart, InvAfter, InvMemcpy, Published, InvExternal, Inv;
  }

  /**
   The hand-off gets on: from any state of the copy loop, every error-free run in which each core moves at least once in
   every `k` steps leaves the loop within `k * 30000 * (len + 1)` steps.
   */
  lemma FairRunLeavesLoop(c: Config, run: seq<State>, who: seq<Core>, k: nat)
    requires c.Fits() && |run| == |who| + 1 && Copying(c, run[0]) && Fair(who, k)
    requires forall i :: 0 <= i < |who| ==> StepOf(c, run[i], run[i + 1], who[i])
    requires |who| >= k * (30000 * (|c.image| + 1))
    ensures exists i :: 0 <= i < |run| && !InLoop(run[i].net)
  {
    hide Copying, Rank, StepOf, Fair;
    if forall i :: 0 <= i < |run| ==> InLoop(run[i].net) {
      FairRunIsShort(c, run, who, k);
      RankBound(c, run[0]);
      Windows(k, Rank(c, run[0]), 30000 * (|c.image| + 1) - 1);
      assert false;
    }
  }

  /** `bytes_left` never underflows, `bytes_moved` never overflows, and the pages add up to the whole image. */
  lemma ChunkArithmetic(c: Config, s: State)
    requires c.Fits() && Reachable(c, s) && c.External() && !s.net.Off?
    ensures s.app.UpdLen? ==> Sub32(|c.image|, s.moved) == |c.image| - s.moved
    ensures s.app.UpdMoved? ==> Add32(s.moved, s.chunkLen) == s.moved + s.chunkLen <= |c.image|
    ensures s.chunks == (s.moved + PAGE - 1) / PAGE
    ensures CopySucceeded(s.net) ==> s.chunks == (|c.image| + PAGE - 1) / PAGE
  {
    ReachableInv(c, s);
    assert InvCount(c, s);
    CopyLosesNothingElse(c, s);
    PagesRoundUp(s.chunks, s.moved, |c.image|);
  }

  lemma CopyLosesNothingElse(c: Config, s: State)
    requires c.Fits() && Inv(c, s) && c.External() && !s.net.Off?
    ensures CopySucceeded(s.net) ==> s.moved == |c.image|
  {}

  lemma PagesRoundUp(chunks: nat, moved: nat, len: nat)
    requires moved == Min(chunks * 4096, len) && (chunks > 0 ==> (chunks - 1) * 4096 < len)
    ensures chunks == (moved + PAGE - 1) / PAGE
  {}
}
