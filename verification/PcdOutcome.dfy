/**
 What decides an update.  An internal image is copied if and only if the firmware check accepts it where it lies; and
 in a run without driver errors the verdict is DONE if and only if the checks accept the source and the flash.
 */
module PcdOutcome {
  import opened Bytes
  import opened PcdProtocol
  import opened PcdSafety
  import opened PcdVerdict

  // ---------------------------------------------------------------- a refused source

  /** The image is internal and fails the check where it lies. */
  predicate SourceRefused(c: Config) {
    c.data < 0x1000_0000 && !c.sourceOk
  }

  /** Nothing was written, nothing will be, and the update has not succeeded. */
  ghost predicate Untouched(s: State, f: seq<Byte>) {
    && s.w == 0 && s.flash == f
    && (s.net.Off? || s.net.Protect? || s.net.CheckMagic? || s.net.PreValidate? || s.net.SetFail? || s.net.Halted?)
    && (s.net.Halted? ==> s.magic != MAGIC_DONE)
  }

  lemma RefusedStep(c: Config, s: State, s': State, f: seq<Byte>)
    requires c.Fits() && SourceRefused(c) && InvPcs(c, s) && InvMagic(c, s) && Untouched(s, f) && Next(c, s, s')
    ensures Untouched(s', f)
  {
    hide AppStep, NetOk, NetErr, InvPcs, InvMagic, Untouched;
    if s' == AppStep(c, s) {
      RefusedApp(c, s, f);
    } else {
      RefusedNet(c, s, s', f);
    }
  }

  lemma RefusedApp(c: Config, s: State, f: seq<Byte>)
    requires c.Fits() && InvPcs(c, s) && InvMagic(c, s) && Untouched(s, f)
    ensures Untouched(AppStep(c, s), f)
  {}

  lemma RefusedNet(c: Config, s: State, s': State, f: seq<Byte>)
    requires SourceRefused(c) && InvMagic(c, s) && Untouched(s, f) && (NetOk(c, s, s') || NetErr(s, s'))
    ensures Untouched(s', f)
  {}

  lemma {:induction false} RefusedRun(c: Config, s: State, t: State, n: nat)
    requires c.Fits() && SourceRefused(c) && Init(c, s) && Steps(c, s, t, n)
    ensures Untouched(t, s.flash)
    decreases n
  {
    hide Inv, Next, Untouched;
    if n == 0 {
      assert Untouched(s, s.flash) by { InitUntouched(c, s); }
    } else {
      var m :| Steps(c, s, m, n - 1) && Next(c, m, t);
      RefusedRun(c, s, m, n - 1);
      StepsKeepInv(c, s, m, n - 1);
      ControlOf(c, m);
      RefusedStep(c, m, t, s.flash);
    }
  }

  lemma InitUntouched(c: Config, s: State)
    requires Init(c, s)
    ensures Untouched(s, s.flash)
  {}

  lemma ControlOf(c: Config, s: State)
    requires Inv(c, s)
    ensures InvPcs(c, s) && InvMagic(c, s) && (s.net.PreValidate? ==> !c.External())
  {}

  /**
   An internal image that fails the check where it lies is never copied, not one byte, and the update never succeeds.
   */
  lemma RefusedSourceIsNeverCopied(c: Config, s: State)
    requires c.Fits() && c.data < 0x1000_0000 && !c.sourceOk && Reachable(c, s)
    ensures s.w == 0 && s.app != Returned(true)
    ensures exists i, n :: Init(c, i) && Steps(c, i, s, n) && s.flash == i.flash
  {
    ReachableInv(c, s);
    ControlOf(c, s);
    hide Inv, Steps, Init;
    var i, n :| Init(c, i) && Steps(c, i, s, n);
    RefusedRun(c, i, s, n);
  }

  // ---------------------------------------------------------------- an accepted source

  /** The whole internal copy, which leaves `g` in flash. */
  lemma {:induction false} WriteInternal(c: Config, s: State, t: State, n: nat, g: seq<Byte>)
    returns (u: State, n': nat)
    requires c.Fits() && Steps(c, s, t, n) && t.net.IntWrite? && t.net.k == t.w <= |c.image|
    requires SameBytes(g, 0, c.image, 0, |c.image|) && |g| == |t.flash| && SameBytes(g, 0, t.flash, 0, t.w)
    requires t.flash == g || t.w < |c.image|
    ensures Steps(c, s, u, n') && u == t.(flash := g, w := |c.image|, net := Validate)
    decreases |c.image| - t.w
  {
    hide Steps;
    if t.w == |c.image| {
      u, n' := t.(net := Validate), n + 1;
      ThenNet(c, s, t, n, u);
    } else {
      var m := t.(flash := g, w := t.w + 1, net := IntWrite(t.net.k + 1));
      ThenNet(c, s, t, n, m);
      u, n' := WriteInternal(c, s, m, n + 1, g);
    }
  }

  /**
   An internal image that passes the check where it lies has a run that copies all of it, into any flash, and succeeds.
   */
  lemma AcceptedSourceSucceeds(c: Config, f0: seq<Byte>, f: seq<Byte>) returns (u: State)
    requires c.Fits() && 0 < c.data < 0x1000_0000 && |c.image| > 0 && c.sourceOk
    requires SameBytes(f, 0, c.image, 0, |c.image|) && c.accepts(f) && |f0| == |f|
    ensures Reachable(c, u) && u.app == Returned(true) && u.w == |c.image| && u.flash == f
  {
    hide Steps, Init;
    var s := State(0, 0, 0, false, false, seq(PAGE, _ => 0), f0, 0, 0, Entry, Off);
    assert Init(c, s) by { InitOf(c, s); }
    StepsZero(c, s);
    var t := ThenApp(c, s, s, 0);
    t := ThenApp(c, s, t, 1);
    ThenNet(c, s, t, 2, t.(net := CheckMagic));
    ThenNet(c, s, t.(net := CheckMagic), 3, t.(net := PreValidate));
    ThenNet(c, s, t.(net := PreValidate), 4, t.(net := CopyMagic));
    ThenNet(c, s, t.(net := CopyMagic), 5, t.(net := StreamInit));
    ThenNet(c, s, t.(net := StreamInit), 6, t.(net := IntWrite(0)));
    var n: nat;
    t, n := WriteInternal(c, s, t.(net := IntWrite(0)), 7, f);
    u := Accepted(c, s, t, n);
  }

  lemma InitOf(c: Config, s: State)
    requires s.app == Entry && s.net == Off && s.w == 0 && |s.window| == 4096 && |s.flash| >= |c.image|
    ensures Init(c, s)
  {}

  // ---------------------------------------------------------------- what errors and the clearing leave

  /** A failed write may leave anything behind the bytes that were written before, for both kinds of image. */
  lemma FailedWriteLeavesAnything(s: State, g: seq<Byte>)
    requires |g| == |s.flash| && SameBytes(g, 0, s.flash, 0, s.w)
    ensures s.net.IntWrite? ==> NetErr(s, s.(flash := g, net := SetFail))
    ensures s.net.ExtWrite? ==> NetErr(s, s.(flash := g, net := ErrMemset(0)))
  {}

  /** The first `k` bytes of the window are cleared. */
  predicate ClearedTo(s: State, k: nat) {
    k <= 4096 == |s.window| && forall i :: 0 <= i < k ==> s.window[i] == 0
  }

  predicate ClearedSoFar(s: State) {
    match s.net
    case ErrMemset(k) => ClearedTo(s, k)
    case EndMemset(k) => ClearedTo(s, k)
    case _ => true
  }

  lemma StepClears(c: Config, s: State, s': State)
    requires c.Fits() && Inv(c, s) && Next(c, s, s') && ClearedSoFar(s)
    ensures ClearedSoFar(s')
    ensures (s.net.ErrMemset? || s.net.EndMemset?) && s'.net != s.net && !s'.net.ErrMemset? && !s'.net.EndMemset? ==>
              ClearedTo(s', 4096)
  {
    assert |s.window| == PAGE;
    if s' == AppStep(c, s) {
      AppKeepsWindow(c, s);
    } else {
      hide Inv;
      NetClears(c, s, s');
    }
  }

  lemma AppKeepsWindow(c: Config, s: State)
    requires c.Fits() && Inv(c, s)
    ensures AppStep(c, s).net == s.net || s.net.Off?
    ensures s.net.ErrMemset? || s.net.EndMemset? ==> AppStep(c, s).window == s.window
  {
    if c.External() && CopyOver(s.net) { assert InvAfter(c, s); }
  }

  lemma NetClears(c: Config, s: State, s': State)
    requires |s.window| == 4096 && ClearedSoFar(s) && (NetOk(c, s, s') || NetErr(s, s'))
    ensures ClearedSoFar(s')
    ensures (s.net.ErrMemset? || s.net.EndMemset?) && !s'.net.ErrMemset? && !s'.net.EndMemset? ==> ClearedTo(s', 4096)
  {}

  /** In every run the clearing of the window has cleared all that it has passed. */
  lemma {:induction false} WindowIsCleared(c: Config, s: State, t: State, n: nat)
    requires c.Fits() && Init(c, s) && Steps(c, s, t, n)
    ensures ClearedSoFar(t)
    decreases n
  {
    hide Inv, Next, Init;
    if n > 0 {
      var m :| Steps(c, s, m, n - 1) && Next(c, m, t);
      WindowIsCleared(c, s, m, n - 1);
      StepsKeepInv(c, s, m, n - 1);
      StepClears(c, m, t);
    } else {
      InitIsOff(c, s);
    }
  }

  /**
   The shared window is cleared, all of it, when the copy of an external image ends, well or not: in every reachable
   state the step that ends the clearing leaves all 4096 bytes zero.
   */
  lemma ClearingIsComplete(c: Config, s: State, s': State)
    requires c.Fits() && Reachable(c, s) && Next(c, s, s')
    requires (s.net.ErrMemset? || s.net.EndMemset?) && !s'.net.ErrMemset? && !s'.net.EndMemset?
    ensures |s'.window| == 4096 && forall i :: 0 <= i < 4096 ==> s'.window[i] == 0
  {
    ReachableInv(c, s);
    hide Steps, Init, Inv, Next;
    var i, n :| Init(c, i) && Steps(c, i, s, n);
    WindowIsCleared(c, i, s, n);
    StepClears(c, s, s');
  }

  lemma InitIsOff(c: Config, s: State)
    requires Init(c, s)
    ensures s.net.Off?
  {}

  // ---------------------------------------------------------------- runs without errors

  ghost predicate OkNext(c: Config, s: State, s': State)
    requires c.Fits()
  {
    s' == AppStep(c, s) || NetOk(c, s, s')
  }

  /** `t` can follow `s` after exactly `n` steps, none of which is a driver error. */
  ghost predicate OkSteps(c: Config, s: State, t: State, n: nat)
    requires c.Fits()
    decreases n
  {
    if n == 0 then s == t else exists m :: OkSteps(c, s, m, n - 1) && OkNext(c, m, t)
  }

  /** A failure without an error has one of two reasons. */
  ghost predicate FailsForCause(c: Config, s: State) {
    && !s.net.ErrMemset?
    && (s.net.SetFail? || (s.net.Halted? && s.magic == MAGIC_FAIL) ==> SourceRefused(c) || !c.accepts(s.flash))
  }

  lemma OkStepForCause(c: Config, s: State, s': State)
    requires c.Fits() && InvPcs(c, s) && InvMagic(c, s) && FailsForCause(c, s) && OkNext(c, s, s')
    requires s.net.PreValidate? ==> !c.External()
    ensures FailsForCause(c, s')
  {
    hide AppStep, NetOk, InvPcs, InvMagic, FailsForCause;
    if s' == AppStep(c, s) { AppForCause(c, s); } else { NetForCause(c, s, s'); }
  }

  lemma AppForCause(c: Config, s: State)
    requires c.Fits() && InvPcs(c, s) && InvMagic(c, s) && FailsForCause(c, s)
    ensures FailsForCause(c, AppStep(c, s))
  {}

  lemma NetForCause(c: Config, s: State, s': State)
    requires InvPcs(c, s) && InvMagic(c, s) && FailsForCause(c, s) && NetOk(c, s, s')
    requires s.net.PreValidate? ==> !c.External()
    ensures FailsForCause(c, s')
  {}

  lemma {:induction false} OkRunForCause(c: Config, s: State, t: State, n: nat)
    requires c.Fits() && Init(c, s) && OkSteps(c, s, t, n)
    ensures Steps(c, s, t, n) && FailsForCause(c, t)
    decreases n
  {
    hide Inv, AppStep, NetOk, NetErr, FailsForCause;
    if n == 0 {
      InitForCause(c, s);
    } else {
      var m :| OkSteps(c, s, m, n - 1) && OkNext(c, m, t);
      OkRunForCause(c, s, m, n - 1);
      assert Next(c, m, t);
      StepsKeepInv(c, s, m, n - 1);
      ControlOf(c, m);
      OkStepForCause(c, m, t);
    }
  }

  lemma InitForCause(c: Config, s: State)
    requires Init(c, s)
    ensures FailsForCause(c, s)
  {}

  /**
   The verdict of every run without driver errors: once the network core has halted, the update is DONE if and only if
   the firmware check accepts the flash, and an internal source as well; otherwise it is FAIL.
   */
  lemma ErrorFreeVerdict(c: Config, i: State, s: State, n: nat)
    requires c.Fits() && Init(c, i) && OkSteps(c, i, s, n) && s.net.Halted?
    ensures s.magic == 0xf103ce5d <==> c.accepts(s.flash) && (c.data >= 0x1000_0000 || c.sourceOk)
    ensures s.magic != 0xf103ce5d ==> s.magic == 0x25bafc15
  {
    OkRunForCause(c, i, s, n);
    assert Reachable(c, s);
    if c.data < 0x1000_0000 && !c.sourceOk {
      hide OkSteps, Steps, Init, Inv;
      RefusedRun(c, i, s, n);
    }
    ReachableInv(c, s);
    ControlOf(c, s);
  }
}
