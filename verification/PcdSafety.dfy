/** What every run of the firmware hand-off guarantees, and what it does not. */
module PcdSafety {
  import opened Bytes
  import opened PcdProtocol

  // ---------------------------------------------------------------- safety of every reachable state

  lemma {:induction false} StepsKeepInv(c: Config, s: State, t: State, n: nat)
    requires c.Fits() && Init(c, s) && Steps(c, s, t, n)
    ensures Inv(c, t)
    decreases n
  {
    hide Inv, Next, AppStep, NetOk, NetErr;
    if n == 0 {
      InitEstablishesInv(c, s);
    } else {
      var m :| Steps(c, s, m, n - 1) && Next(c, m, t);
      StepsKeepInv(c, s, m, n - 1);
      NextKeepsInv(c, m, t);
    }
  }

  lemma NextKeepsInv(c: Config, s: State, s': State)
    requires c.Fits() && Inv(c, s) && Next(c, s, s')
    ensures Inv(c, s')
  {
    hide Inv, AppStep, NetOk, NetErr;
    if s' == AppStep(c, s) { AppKeepsInv(c, s); } else { NetKeepsInv(c, s, s'); }
  }

  lemma ReachableInv(c: Config, s: State)
    requires c.Fits() && Reachable(c, s)
    ensures Inv(c, s)
  {
    hide Inv, Init, Next;
    var i, n :| Init(c, i) && Steps(c, i, s, n);
    StepsKeepInv(c, i, s, n);
  }

  /** The application core is putting bytes of a non-empty chunk into the window the network core uses. */
  predicate Overlap(s: State) {
    s.app.UpdCopy? && s.chunkLen > 0 && UsesWindow(s.net)
  }

  /** The main safety theorem: the flash stream is always a prefix of the image, and the window has one user. */
  lemma HandOffIsSafe(c: Config, s: State)
    requires c.Fits() && Reachable(c, s)
    ensures SameBytes(s.flash, 0, c.image, 0, s.w)
    ensures c.External() && !s.net.Off? ==> s.w <= s.moved <= |c.image|
    ensures c.External() && !s.net.Off? ==> !(s.available && s.written)
    ensures !s.net.Off? ==> !Overlap(s)
  {
    ReachableInv(c, s);
    assert c.External() ==> InvStart(c, s) && InvFlags(s);
  }

  /** With whole pages counted, everything but the last chunk is what precedes page `chunks - 1`. */
  lemma LastChunkFromPages(len: nat, chunks: nat)
    requires chunks > 0 && (chunks - 1) * 4096 < len <= chunks * 4096
    ensures (chunks - 1) * 4096 == len - LastChunk(len)
  {}

  /** When the network core's copy returns 0, all of the image is in flash, or all but its last chunk. */
  lemma CopyLosesAtMostTheLastChunk(c: Config, s: State)
    requires c.Fits() && Reachable(c, s) && CopySucceeded(s.net)
    ensures !c.External() ==> s.w == |c.image|
    ensures c.External() ==> s.moved == |c.image| && (s.w == |c.image| || s.w == |c.image| - LastChunk(|c.image|))
  {
    ReachableInv(c, s);
    if c.External() {
      assert InvAfter(c, s) && InvCount(c, s);
      LastChunkFromPages(|c.image|, s.chunks);
    }
  }

  /** The network core's firmware check accepts a flash only if it starts with the whole image. */
  ghost predicate Sound(c: Config) {
    forall f :: |f| >= |c.image| && c.accepts(f) ==> SameBytes(f, 0, c.image, 0, |c.image|)
  }

  /**
   `pcd_network_core_update` returns 0 only on an accepted flash that took all, or all but one chunk, of the image.
   */
  lemma SuccessMeansAccepted(c: Config, s: State)
    requires c.Fits() && Reachable(c, s) && s.app == Returned(true)
    ensures s.magic == MAGIC_DONE && s.net.Halted? && c.accepts(s.flash)
    ensures SameBytes(s.flash, 0, c.image, 0, s.w)
    ensures s.w == |c.image| || (c.External() && s.w == |c.image| - LastChunk(|c.image|))
    ensures Sound(c) ==> SameBytes(s.flash, 0, c.image, 0, |c.image|)
  {
    ReachableInv(c, s);
    if c.External() {
      assert InvAfter(c, s) && InvCount(c, s);
      LastChunkFromPages(|c.image|, s.chunks);
    }
  }

  /** With a sound check, a copy that left the flash without the whole image is never reported as done. */
  lemma IncompleteCopyIsNeverDone(c: Config, s: State)
    requires c.Fits() && Reachable(c, s) && Sound(c)
    requires !SameBytes(s.flash, 0, c.image, 0, |c.image|)
    ensures !s.net.SetDone? && (s.net.Halted? ==> s.magic == MAGIC_FAIL) && s.app != Returned(true)
  {
    ReachableInv(c, s);
  }

  // ---------------------------------------------------------------- images of at most one page

  /** The first chunk is the whole image, so the network core's loop never finds anything to do. */
  ghost predicate NothingCopied(c: Config, s: State, f: seq<Byte>) {
    && s.flash == f && s.w == 0
    && (!s.net.Off? ==> s.moved == |c.image| && (!InLoop(s.net) || s.net.Guard?) && !s.net.ErrMemset?)
    && (s.net.Off? && s.app.PowerOn? ==> s.moved == |c.image|)
  }

  lemma SinglePageStep(c: Config, s: State, s': State, f: seq<Byte>)
    requires c.Fits() && c.External() && 0 < |c.image| <= PAGE
    requires Inv(c, s) && Next(c, s, s') && NothingCopied(c, s, f)
    ensures NothingCopied(c, s', f)
  {
    assert ChunksMatter(s) ==> InvCount(c, s);
    assert InvStart(c, s) && InvControl(c, s);
    hide Inv, InvStart, InvControl, InvCount, AppStep, NetOk, NetErr, NothingCopied;
    if s' == AppStep(c, s) { SinglePageApp(c, s, f); } else { SinglePageNet(c, s, s', f); }
  }

  lemma SinglePageApp(c: Config, s: State, f: seq<Byte>)
    requires c.Fits() && c.External() && 0 < |c.image| <= PAGE && NothingCopied(c, s, f)
    requires InvStart(c, s) && InvControl(c, s) && (ChunksMatter(s) ==> InvCount(c, s))
    ensures NothingCopied(c, AppStep(c, s), f)
  {}

  lemma SinglePageNet(c: Config, s: State, s': State, f: seq<Byte>)
    requires c.Fits() && c.External() && 0 < |c.image| <= PAGE && NothingCopied(c, s, f)
    requires InvStart(c, s) && InvControl(c, s) && (NetOk(c, s, s') || NetErr(s, s'))
    ensures NothingCopied(c, s', f)
  {}

  lemma SinglePageInit(c: Config, s: State)
    requires Init(c, s)
    ensures NothingCopied(c, s, s.flash)
  {}

  lemma {:induction false} SinglePageSteps(c: Config, s: State, t: State, n: nat)
    requires c.Fits() && c.External() && 0 < |c.image| <= PAGE
    requires Init(c, s) && Steps(c, s, t, n)
    ensures NothingCopied(c, t, s.flash)
    decreases n
  {
    hide Inv, Next, Init, NothingCopied;
    if n == 0 {
      SinglePageInit(c, s);
    } else {
      var m :| Steps(c, s, m, n - 1) && Next(c, m, t);
      SinglePageSteps(c, s, m, n - 1);
      StepsKeepInv(c, s, m, n - 1);
      SinglePageStep(c, m, t, s.flash);
    }
  }

  /** The copy of a one-page external image writes no byte at all. */
  lemma SinglePageNeverWritten(c: Config, s: State)
    requires c.Fits() && c.External() && 0 < |c.image| <= PAGE && Reachable(c, s)
    ensures s.w == 0 && exists i, n :: Init(c, i) && Steps(c, i, s, n) && i.flash == s.flash
  {
    hide Steps, Init, Next;
    var i, n :| Init(c, i) && Steps(c, i, s, n);
    SinglePageSteps(c, i, s, n);
  }
}
