/**
 When an update that returns 0 has really installed the image.  The runs that show the exact condition are built here,
 step by step: the network core leaves its loop as soon as the last chunk is counted, before it is written.
 */
module PcdVerdict {
  import opened Bytes
  import opened PcdProtocol
  import opened PcdSafety

  // ---------------------------------------------------------------- runs, step by step

  lemma StepsZero(c: Config, s: State)
    requires c.Fits()
    ensures Steps(c, s, s, 0)
  {}

  lemma ThenApp(c: Config, s: State, t: State, n: nat) returns (t': State)
    requires c.Fits() && Steps(c, s, t, n)
    ensures t' == AppStep(c, t) && Steps(c, s, t', n + 1)
  {
    hide AppStep, NetOk, NetErr;
    t' := AppStep(c, t);
    assert Next(c, t, t');
  }

  lemma ThenNet(c: Config, s: State, t: State, n: nat, t': State)
    requires c.Fits() && Steps(c, s, t, n) && NetOk(c, t, t')
    ensures Steps(c, s, t', n + 1)
  {
    hide AppStep, NetOk, NetErr;
    assert Next(c, t, t');
  }

  /** `memcpy` runs to its end, and the window then holds the chunk in front of what it held before. */
  lemma {:induction false} CopyWindow(c: Config, s: State, t: State, n: nat, before: seq<Byte>)
    returns (t': State, n': nat)
    requires c.Fits() && Steps(c, s, t, n) && t.app.UpdCopy? && |t.window| == |before| == PAGE
    requires t.app.k <= t.chunkLen <= PAGE && t.moved + t.chunkLen <= |c.image|
    requires SameBytes(t.window, 0, c.image, t.moved, t.app.k) && t.window[t.app.k..] == before[t.app.k..]
    ensures Steps(c, s, t', n')
    ensures t' == t.(window := t'.window, app := UpdCopy(t.chunkLen)) && |t'.window| == PAGE
    ensures SameBytes(t'.window, 0, c.image, t.moved, t.chunkLen) && t'.window[t.chunkLen..] == before[t.chunkLen..]
    decreases t.chunkLen - t.app.k
  {
    hide Steps;
    if t.app.k == t.chunkLen {
      t', n' := t, n;
    } else {
      var m := ThenApp(c, s, t, n);
      t', n' := CopyWindow(c, s, m, n + 1, before);
    }
  }

  /** The final `memset` runs to its end. */
  lemma {:induction false} FinishMemset(c: Config, s: State, t: State, n: nat) returns (t': State, n': nat)
    requires c.Fits() && Steps(c, s, t, n) && t.net.EndMemset? && t.net.k <= |t.window|
    ensures Steps(c, s, t', n') && t' == t.(window := t'.window, net := Validate)
    decreases |t.window| - t.net.k
  {
    hide Steps;
    if t.net.k == |t.window| {
      t', n' := t.(net := Validate), n + 1;
      ThenNet(c, s, t, n, t');
    } else {
      var m := t.(window := t.window[t.net.k := 0], net := EndMemset(t.net.k + 1));
      ThenNet(c, s, t, n, m);
      t', n' := FinishMemset(c, s, m, n + 1);
    }
  }

  // ---------------------------------------------------------------- a run that loses the last chunk

  /** Everything but the last chunk of the image is in `f`. */
  ghost predicate HoldsAllButLast(c: Config, f: seq<Byte>) {
    |f| >= |c.image| && SameBytes(f, 0, c.image, 0, |c.image| - LastChunk(|c.image|))
  }

  /** Both cores idle between two rounds: a chunk is published, and the network core is about to test its loop guard. */
  ghost predicate Between(c: Config, f: seq<Byte>, t: State) {
    && t.app.PollMagic? && t.net.Guard? && t.magic == MAGIC_COPY && t.flash == f
    && t.available && !t.written && 0 < t.chunkLen <= PAGE && t.chunkLen <= t.moved <= |c.image|
    && t.w == t.moved - t.chunkLen
    && (if t.moved < |c.image| then t.moved % PAGE == 0 else t.chunkLen == LastChunk(|c.image|))
    && |t.window| == PAGE && Published(c, t)
  }

  lemma WholePagesBeforeLast(len: nat, moved: nat)
    requires moved < len && moved % PAGE == 0
    ensures moved <= len - LastChunk(len)
    ensures len - moved <= PAGE ==> len - moved == LastChunk(len)
    ensures len - moved > PAGE ==> (moved + PAGE) % PAGE == 0
  {}

  /** `pcd_cmd_write` publishes the first chunk, and both cores get to their loops. */
  lemma PublishFirst(c: Config, f: seq<Byte>) returns (s: State, t: State, n: nat)
    requires c.Fits() && c.External() && 0 < |c.image| && |f| >= |c.image|
    ensures Init(c, s) && Steps(c, s, t, n) && Between(c, f, t) && t.moved == Min(PAGE, |c.image|) && t.w == 0
  {
    hide Steps, Published;
    s := State(0, 0, 0, false, false, seq(PAGE, _ => 0), f, 0, 0, Entry, Off);
    StepsZero(c, s);
    t := ThenApp(c, s, s, 0);
    t, n := PublishNext(c, s, t, 1);
    ghost var p := t;
    t := ThenApp(c, s, t, n);
    SamePublished(c, p, t);
    n := EnterLoop(c, s, t, n + 1);
    assert Published(c, t.(net := Guard)) by { SamePublished(c, t, t.(net := Guard)); }
    t := t.(net := Guard);
    WholePagesBeforeLast(|c.image|, 0);
  }

  lemma SamePublished(c: Config, t: State, u: State)
    requires u.window == t.window && u.moved == t.moved && u.chunkLen == t.chunkLen
    ensures Published(c, t) <==> Published(c, u)
  {}

  /** The network core gets to its loop. */
  lemma EnterLoop(c: Config, s: State, t: State, n: nat) returns (n': nat)
    requires c.Fits() && c.External() && Steps(c, s, t, n) && t.net.Protect? && t.magic == MAGIC_COPY
    ensures Steps(c, s, t.(net := Guard), n')
  {
    hide Steps;
    ThenNet(c, s, t, n, t.(net := CheckMagic));
    ThenNet(c, s, t.(net := CheckMagic), n + 1, t.(net := CopyMagic));
    ThenNet(c, s, t.(net := CopyMagic), n + 2, t.(net := StreamInit));
    ThenNet(c, s, t.(net := StreamInit), n + 3, t.(net := Guard));
    n' := n + 4;
  }

  /** `pcd_cmd_update` runs to its end. */
  lemma PublishNext(c: Config, s: State, t: State, n: nat) returns (u: State, n': nat)
    requires c.Fits() && Steps(c, s, t, n) && t.app.UpdLen? && |t.window| == PAGE && t.moved < |c.image|
    ensures Steps(c, s, u, n') && |u.window| == PAGE
    ensures var m := Min(PAGE, |c.image| - t.moved);
            u == t.(window := u.window, chunkLen := m, moved := t.moved + m, chunks := t.chunks + 1,
                    written := false, available := true, app := AfterUpdate(t))
    ensures Published(c, u)
  {
    hide Steps;
    u := ThenApp(c, s, t, n);
    u, n' := CopyWindow(c, s, u, n + 1, t.window);
    u := ThenApp(c, s, u, n');
    u := ThenApp(c, s, u, n' + 1);
    u := ThenApp(c, s, u, n' + 2);
    u := ThenApp(c, s, u, n' + 3);
    n' := n' + 4;
  }

  /** The stream write of one chunk that leaves the flash as `g`, which holds the chunk and what was written before. */
  lemma {:induction false} WriteChunk(c: Config, s: State, t: State, n: nat, g: seq<Byte>) returns (u: State, n': nat)
    requires c.Fits() && Steps(c, s, t, n) && t.net.ExtWrite? && t.net.k <= t.net.n <= |t.window|
    requires |g| == |t.flash| && SameBytes(g, 0, t.flash, 0, t.w) && (t.flash == g || t.net.k < t.net.n)
    requires SameBytes(g, t.w, t.window, t.net.k, t.net.n - t.net.k)
    ensures Steps(c, s, u, n') && u == t.(flash := g, w := t.w + (t.net.n - t.net.k), net := ClearAvail)
    decreases t.net.n - t.net.k
  {
    hide Steps;
    if t.net.k == t.net.n {
      u, n' := t.(net := ClearAvail), n + 1;
      ThenNet(c, s, t, n, u);
    } else {
      var m := t.(flash := g, w := t.w + 1, net := ExtWrite(t.net.k + 1, t.net.n));
      ThenNet(c, s, t, n, m);
      u, n' := WriteChunk(c, s, m, n + 1, g);
    }
  }

  /** The state once the network core has taken the published chunk, with `g` in flash. */
  function Taken(t: State, g: seq<Byte>): State {
    t.(flash := g, w := t.w + t.chunkLen, available := false, written := true, net := Guard)
  }

  lemma Take(c: Config, s: State, t: State, n: nat, g: seq<Byte>) returns (n': nat)
    requires c.Fits() && Steps(c, s, t, n) && t.net.CheckAvail? && t.available && 0 < t.chunkLen <= |t.window|
    requires |g| == |t.flash| && SameBytes(g, 0, t.flash, 0, t.w) && SameBytes(g, t.w, t.window, 0, t.chunkLen)
    ensures Steps(c, s, Taken(t, g), n')
  {
    hide Steps;
    var u := t.(net := LoadLen);
    ThenNet(c, s, t, n, u);
    ThenNet(c, s, u, n + 1, t.(net := ExtWrite(0, t.chunkLen)));
    u, n' := WriteChunk(c, s, t.(net := ExtWrite(0, t.chunkLen)), n + 2, g);
    ThenNet(c, s, u, n', u.(available := false, net := SetWritten));
    u := u.(available := false, net := SetWritten);
    ThenNet(c, s, u, n' + 1, u.(written := true, net := Guard));
    n' := n' + 2;
  }

  /** The flash `f` holds what is in the window, where it is to go. */
  lemma ChunkInFlash(c: Config, f0: seq<Byte>, f: seq<Byte>, t: State)
    requires HoldsAllButLast(c, f) && Between(c, f0, t) && t.moved < |c.image| && |f| == |f0| && (f0 == f || t.w == 0)
    ensures SameBytes(f, t.w, t.window, 0, t.chunkLen) && SameBytes(f, 0, f0, 0, t.w)
  {
    WholePagesBeforeLast(|c.image|, t.moved);
  }

  /** The application core, having seen the chunk written, publishes the next one. */
  lemma NextPublished(c: Config, s: State, t: State, n: nat, f: seq<Byte>) returns (u: State, n': nat)
    requires c.Fits() && c.External() && Steps(c, s, t, n)
    requires t.app.PollMagic? && t.net.Guard? && t.magic == MAGIC_COPY && t.flash == f && t.written
    requires |t.window| == PAGE
    requires t.moved < |c.image| && t.w == t.moved && t.moved % PAGE == 0
    ensures Steps(c, s, u, n') && Between(c, f, u) && u.moved == Min(t.moved + PAGE, |c.image|)
  {
    hide Steps, Published;
    WholePagesBeforeLast(|c.image|, t.moved);
    u := ThenApp(c, s, t, n);
    u := ThenApp(c, s, u, n + 1);
    assert u == t.(app := UpdLen);
    u, n' := PublishNext(c, s, u, n + 2);
  }

  /**
   One round: the network core takes a chunk, which leaves `f` in flash, and the application core publishes the next.
   */
  lemma OneRound(c: Config, s: State, t: State, n: nat, f0: seq<Byte>, f: seq<Byte>) returns (u: State, n': nat)
    requires c.Fits() && c.External() && HoldsAllButLast(c, f) && |f| == |f0| && (f0 == f || t.w == 0)
    requires Steps(c, s, t, n) && Between(c, f0, t) && t.moved < |c.image|
    ensures Steps(c, s, u, n') && Between(c, f, u) && u.moved == Min(t.moved + PAGE, |c.image|)
  {
    hide Steps, Published, SameBytes, HoldsAllButLast, NetOk, AppStep;
    var g := t.(net := CheckAvail);
    assert SameBytes(f, g.w, g.window, 0, g.chunkLen) && SameBytes(f, 0, g.flash, 0, g.w) by {
      ChunkInFlash(c, f0, f, t);
    }
    assert NetOk(c, t, g) by { EnterRound(c, t); }
    ThenNet(c, s, t, n, g);
    n' := Take(c, s, g, n + 1, f);
    u, n' := NextPublished(c, s, Taken(g, f), n', f);
  }

  lemma EnterRound(c: Config, t: State)
    requires c.Fits() && t.net.Guard? && t.moved < |c.image|
    ensures NetOk(c, t, t.(net := CheckAvail))
  {}

  /** Round after round, until no more than `left` bytes are to be published. */
  lemma {:induction false} Rounds(c: Config, s: State, t: State, n: nat, f: seq<Byte>, left: nat)
    returns (u: State, n': nat)
    requires c.Fits() && c.External() && HoldsAllButLast(c, f) && Steps(c, s, t, n) && Between(c, f, t)
    ensures Steps(c, s, u, n') && Between(c, f, u) && |c.image| - u.moved <= left
    ensures left >= PAGE && t.moved < |c.image| ==> u.moved < |c.image|
    decreases |c.image| - t.moved
  {
    hide Steps, HoldsAllButLast;
    if |c.image| - t.moved <= left {
      u, n' := t, n;
    } else {
      u, n' := OneRound(c, s, t, n, f, f);
      u, n' := Rounds(c, s, u, n', f, left);
    }
  }

  /** With everything published the network core leaves its loop and validates what it has. */
  lemma LeaveLoop(c: Config, s: State, t: State, n: nat) returns (u: State, n': nat)
    requires c.Fits() && Steps(c, s, t, n) && t.net.Guard? && t.moved == |c.image|
    ensures Steps(c, s, u, n') && u == t.(window := u.window, net := Validate)
  {
    hide Steps;
    ThenNet(c, s, t, n, t.(net := EndMemset(0)));
    u, n' := FinishMemset(c, s, t.(net := EndMemset(0)), n + 1);
  }

  /** An accepted flash ends the update with success. */
  lemma Accepted(c: Config, s: State, t: State, n: nat) returns (u: State)
    requires c.Fits() && Init(c, s) && Steps(c, s, t, n) && t.net.Validate? && t.app.PollMagic? && c.accepts(t.flash)
    ensures Reachable(c, u) && u.app == Returned(true) && u.flash == t.flash && u.w == t.w
  {
    hide Steps, Init;
    u := t.(net := SetDone);
    ThenNet(c, s, t, n, u);
    ThenNet(c, s, u, n + 1, u.(magic := MAGIC_DONE, net := Halted));
    u := ThenApp(c, s, u.(magic := MAGIC_DONE, net := Halted), n + 2);
  }

  /**
   Any accepted flash `f` that holds all of the image but its last chunk, whatever is in the place of that, is the
   outcome of an update that returns 0; it may start from any flash `f0`, or, if there is but one chunk, from `f`
   itself.
   */
  lemma LosingRun(c: Config, f0: seq<Byte>, f: seq<Byte>) returns (u: State)
    requires c.Fits() && c.External() && |c.image| > 0 && HoldsAllButLast(c, f) && c.accepts(f)
    requires |f0| == |f| && (|c.image| <= PAGE ==> f0 == f)
    ensures Reachable(c, u) && u.app == Returned(true) && u.flash == f && u.w == |c.image| - LastChunk(|c.image|)
  {
    hide Steps, Init, HoldsAllButLast, Published;
    assert |f| >= |c.image| by { LongEnough(c, f); }
    var s, t, n := PublishFirst(c, f0);
    if |c.image| > PAGE { t, n := OneRound(c, s, t, n, f0, f); }
    t, n := Rounds(c, s, t, n, f, 0);
    t, n := LeaveLoop(c, s, t, n);
    u := Accepted(c, s, t, n);
  }

  lemma LongEnough(c: Config, f: seq<Byte>)
    requires HoldsAllButLast(c, f)
    ensures |f| >= |c.image|
  {}

  // ---------------------------------------------------------------- a run that writes everything

  /** The network core, past its loop guard when the last chunk is counted, waits for that chunk and writes it. */
  lemma LastRoundWon(c: Config, s: State, t: State, n: nat, f0: seq<Byte>, f: seq<Byte>) returns (u: State, n': nat)
    requires c.Fits() && c.External() && SameBytes(f, 0, c.image, 0, |c.image|) && |f| == |f0|
    requires Steps(c, s, t, n) && Between(c, f0, t) && t.moved < |c.image| <= t.moved + PAGE && (f0 == f || t.w == 0)
    ensures Steps(c, s, u, n') && u.net.Guard? && u.w == u.moved == |c.image| && |u.window| == PAGE && u.flash == f
  {
    hide Steps, Published, SameBytes, HoldsAllButLast, NetOk, AppStep;
    var g := t.(net := CheckAvail);
    assert SameBytes(f, g.w, g.window, 0, g.chunkLen) && SameBytes(f, 0, g.flash, 0, g.w) by {
      WindowInFlash(c, f0, f, t);
    }
    assert NetOk(c, t, g) by { EnterRound(c, t); }
    ThenNet(c, s, t, n, g);
    n' := Take(c, s, g, n + 1, f);
    var k := Taken(g, f);
    u := k.(net := CheckAvail);
    assert NetOk(c, k, u) by { EnterRound(c, k); }
    ThenNet(c, s, k, n', u);
    u, n' := NextAnnounced(c, s, u, n' + 1);
    assert SameBytes(f, u.w, u.window, 0, u.chunkLen) && SameBytes(f, 0, u.flash, 0, u.w) by {
      WindowInFlash(c, f, f, u);
    }
    n' := Take(c, s, u, n', f);
    u := Taken(u, f);
  }

  lemma NextAnnounced(c: Config, s: State, t: State, n: nat) returns (u: State, n': nat)
    requires c.Fits() && c.External() && Steps(c, s, t, n)
    requires t.app.PollMagic? && t.net.CheckAvail? && t.magic == MAGIC_COPY && t.written && |t.window| == PAGE
    requires t.moved < |c.image| <= t.moved + PAGE
    ensures Steps(c, s, u, n') && Published(c, u) && |u.window| == PAGE
    ensures u.net.CheckAvail? && u.available && u.flash == t.flash && u.w == t.w && u.chunkLen == |c.image| - t.moved
    ensures u.moved == |c.image|
  {
    hide Steps, Published;
    u := ThenApp(c, s, t, n);
    u := ThenApp(c, s, u, n + 1);
    assert u == t.(app := UpdLen);
    u, n' := PublishNext(c, s, u, n + 2);
  }

  /** The published chunk, where a flash that holds the whole image has it. */
  lemma WindowInFlash(c: Config, f0: seq<Byte>, f: seq<Byte>, t: State)
    requires SameBytes(f, 0, c.image, 0, |c.image|) && Published(c, t) && |f| == |f0| && (f0 == f || t.w == 0)
    requires t.flash == f0 && t.w == t.moved - t.chunkLen && t.moved <= |c.image|
    ensures SameBytes(f, t.w, t.window, 0, t.chunkLen) && SameBytes(f, 0, f0, 0, t.w)
  {}

  /** A longer image has a run that writes all of it, from whatever was in flash. */
  lemma WinningRun(c: Config, f0: seq<Byte>, f: seq<Byte>) returns (u: State)
    requires c.Fits() && c.External() && |c.image| > PAGE && SameBytes(f, 0, c.image, 0, |c.image|) && |f| == |f0|
    ensures Reachable(c, u) && CopySucceeded(u.net) && u.w == |c.image| && u.flash == f
  {
    assert HoldsAllButLast(c, f);
    hide Steps, Init, HoldsAllButLast, SameBytes, Published;
    assert |f| >= |c.image| by { LongEnough(c, f); }
    var s, t, n := PublishFirst(c, f0);
    var from: seq<Byte>;
    t, n, from := AllButLastRound(c, s, t, n, f0, f);
    t, n := LastRoundWon(c, s, t, n, from, f);
    u, n := LeaveLoop(c, s, t, n);
  }

  /** From the first published chunk to the last but one. */
  lemma AllButLastRound(c: Config, s: State, t: State, n: nat, f0: seq<Byte>, f: seq<Byte>)
    returns (u: State, n': nat, from: seq<Byte>)
    requires c.Fits() && c.External() && HoldsAllButLast(c, f) && |f| == |f0|
    requires Steps(c, s, t, n) && Between(c, f0, t) && t.moved == PAGE < |c.image| && t.w == 0
    ensures Steps(c, s, u, n') && Between(c, from, u) && u.moved < |c.image| <= u.moved + PAGE
    ensures (from == f || (from == f0 && u.w == 0)) && |from| == |f|
  {
    hide Steps, HoldsAllButLast, Between;
    if |c.image| > t.moved + PAGE {
      u, n' := OneRound(c, s, t, n, f0, f);
      u, n' := Rounds(c, s, u, n', f, PAGE);
      from := f;
    } else {
      u, n', from := t, n, f0;
    }
  }

  /** The race between counting the last chunk and testing the loop guard decides; with one page it is always lost. */
  lemma FullCopyPossibleIff(c: Config)
    requires c.Fits() && c.External() && |c.image| > 0
    ensures (exists s :: Reachable(c, s) && CopySucceeded(s.net) && s.w == |c.image|) <==> |c.image| > PAGE
  {
    hide Reachable;
    if |c.image| > PAGE {
      var u := WinningRun(c, c.image, c.image);
    } else {
      forall s | Reachable(c, s) ensures s.w == 0 { SinglePageNeverWritten(c, s); }
    }
  }

  // ---------------------------------------------------------------- the verdict

  /**
   The firmware check tells a missing last chunk: it accepts no flash that holds the rest of the image but not that.
   */
  ghost predicate NoticesLastChunk(c: Config) {
    forall f :: HoldsAllButLast(c, f) && c.accepts(f) ==> SameBytes(f, 0, c.image, 0, |c.image|)
  }

  /** Every update that returns 0 leaves the image in flash. */
  ghost predicate SuccessInstalls(c: Config)
    requires c.Fits()
  {
    forall s :: Reachable(c, s) && s.app == Returned(true) ==> SameBytes(s.flash, 0, c.image, 0, |c.image|)
  }

  lemma SuccessHoldsAllButLast(c: Config, s: State)
    requires c.Fits() && Reachable(c, s) && s.app == Returned(true)
    ensures c.accepts(s.flash) && HoldsAllButLast(c, s.flash)
    ensures !c.External() || |c.image| == 0 ==> SameBytes(s.flash, 0, c.image, 0, |c.image|)
  {
    SuccessMeansAccepted(c, s);
    ReachableInv(c, s);
  }

  /**
   The exact condition: a return value of 0 means that the image is installed if and only if the image is internal, or
   empty, or the firmware check notices that the last chunk is missing.  The copy does not see to it by itself.
   */
  lemma UpdateVerdict(c: Config)
    requires c.Fits()
    ensures SuccessInstalls(c) <==> !c.External() || |c.image| == 0 || NoticesLastChunk(c)
  {
    hide Reachable, HoldsAllButLast;
    forall s | Reachable(c, s) && s.app == Returned(true) && (!c.External() || |c.image| == 0 || NoticesLastChunk(c))
      ensures SameBytes(s.flash, 0, c.image, 0, |c.image|)
    {
      SuccessHoldsAllButLast(c, s);
    }
    if c.External() && |c.image| > 0 && !NoticesLastChunk(c) {
      var f :| HoldsAllButLast(c, f) && c.accepts(f) && !SameBytes(f, 0, c.image, 0, |c.image|);
      var u := LosingRun(c, f, f);
      assert !SuccessInstalls(c);
    }
  }
}
