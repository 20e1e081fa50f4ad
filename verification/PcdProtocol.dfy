/**
 The two-core firmware hand-off of the nRF5340 ("PCD").  The application core feeds an image, page by
 page, through a window of shared RAM; the network core drains the window into its own flash.  Both
 cores run at once, and the only synchronisation is the fields of one shared `struct pcd_cmd`.

 Each core is a program counter; one step is one access to a shared field, or one byte of a `memcpy`,
 a `memset` or a flash write.  Shared accesses are sequentially consistent.
 */
module PcdProtocol {
  import opened Bytes

  const MAGIC_COPY: nat := 0xb5b4b3b6
  const MAGIC_FAIL: nat := 0x25bafc15
  const MAGIC_DONE: nat := 0xf103ce5d

  const PAGE: nat := 4096
  /** Addresses from here on are external flash, mapped for execute-in-place. */
  const XIP_BASE: nat := 0x1000_0000

  /** The arguments of one update, and what the network core's own checks would answer. */
  datatype Config = Config(
    data: nat,                        // address of the image, 0 is NULL
    image: seq<Byte>,                 // the `len` bytes found there
    sourceOk: bool,                   // verdict of the firmware check on an internal source
    accepts: seq<Byte> -> bool)       // verdict of the firmware check on the network core's flash
  {
    predicate External() { data >= XIP_BASE }
    predicate Fits() { |image| < 0x1_0000_0000 }
  }

  datatype AppPc =
    | Entry | UpdLen | UpdCopy(k: nat) | UpdMoved | UpdWritten | UpdAvail
    | PowerOn | PollMagic | PollWritten | Returned(ok: bool)

  datatype NetPc =
    | Off | Protect | CheckMagic | PreValidate | CopyMagic | StreamInit
    | IntWrite(k: nat)
    | Guard | CheckAvail | LoadLen | ExtWrite(k: nat, n: nat) | ClearAvail | SetWritten
    | ErrMemset(k: nat) | EndMemset(k: nat)
    | Validate | SetDone | SetFail | Halted | NormalBoot

  datatype State = State(
    magic: nat, moved: uint32, chunkLen: uint32, available: bool, written: bool,
    window: seq<Byte>,                // the 4096 bytes of shared RAM
    flash: seq<Byte>,                 // the network core's application area
    w: nat,                           // how many bytes the flash stream has taken
    chunks: nat,                      // non-empty chunks counted into `bytes_moved` so far
    app: AppPc, net: NetPc)

  // ---------------------------------------------------------------- the application core

  predicate InUpdate(pc: AppPc) {
    pc.UpdLen? || pc.UpdCopy? || pc.UpdMoved? || pc.UpdWritten? || pc.UpdAvail?
  }

  /** Where `pcd_cmd_update` returns to: the first call comes from `pcd_cmd_write`, with the network core off. */
  function AfterUpdate(s: State): AppPc {
    if s.net.Off? then PowerOn else PollMagic
  }

  /** One step of `pcd_network_core_update`, inlining `pcd_cmd_write` and `pcd_cmd_update`. */
  function AppStep(c: Config, s: State): State
    requires c.Fits()
  {
    match s.app
    case Entry =>
      if c.data == 0 || |c.image| == 0 then s.(app := Returned(false))
      else s.(magic := MAGIC_COPY, moved := 0, chunks := 0, app := if c.External() then UpdLen else PowerOn)
    case UpdLen =>
      var left := Sub32(|c.image|, s.moved);
      s.(chunkLen := if left > PAGE then PAGE else left, app := UpdCopy(0))
    case UpdCopy(k) =>
      if k < s.chunkLen && k < |s.window| && s.moved + k < |c.image| then
        s.(window := s.window[k := c.image[s.moved + k]], app := UpdCopy(k + 1))
      else s.(app := UpdMoved)
    case UpdMoved =>
      s.(moved := Add32(s.moved, s.chunkLen),
         chunks := if s.chunkLen > 0 then s.chunks + 1 else s.chunks, app := UpdWritten)
    case UpdWritten => s.(written := false, app := UpdAvail)
    case UpdAvail => s.(available := true, app := AfterUpdate(s))
    case PowerOn => s.(net := Protect, app := PollMagic)
    case PollMagic =>
      if s.magic == MAGIC_COPY then s.(app := PollWritten)
      else s.(app := Returned(s.magic == MAGIC_DONE))
    case PollWritten =>
      if s.written && c.External() then s.(app := UpdLen) else s.(app := PollMagic)
    case Returned(_) => s
  }

  // ---------------------------------------------------------------- the network core

  /** `f'` is `f` with one more byte of the stream at `w`; pages beyond it may have been erased meanwhile. */
  ghost predicate Programmed(f: seq<Byte>, w: nat, b: Byte, f': seq<Byte>) {
    w < |f| && |f'| == |f| && SameBytes(f', 0, f, 0, w) && f'[w] == b
  }

  /** One step of the network core in which nothing goes wrong. */
  ghost predicate NetOk(c: Config, s: State, s': State) {
    match s.net
    case Off => false
    case Protect => s' == s.(net := CheckMagic)
    case CheckMagic =>
      s' == s.(net := if s.magic != MAGIC_COPY then NormalBoot
                      else if c.External() then CopyMagic else PreValidate)
    case PreValidate => s' == s.(net := if c.sourceOk then CopyMagic else SetFail)
    case CopyMagic => s' == s.(net := if s.magic == MAGIC_COPY then StreamInit else SetFail)
    case StreamInit => s' == s.(net := if c.External() then Guard else IntWrite(0))
    case IntWrite(k) =>
      if k < |c.image| then
        && Programmed(s.flash, s.w, c.image[k], s'.flash)
        && s' == s.(flash := s'.flash, w := s.w + 1, net := IntWrite(k + 1))
      else s' == s.(net := Validate)
    case Guard => s' == s.(net := if s.moved < |c.image| then CheckAvail else EndMemset(0))
    case CheckAvail => s' == s.(net := if s.available then LoadLen else Guard)
    case LoadLen => s' == s.(net := ExtWrite(0, s.chunkLen))
    case ExtWrite(k, n) =>
      if k < n then
        && k < |s.window|
        && Programmed(s.flash, s.w, s.window[k], s'.flash)
        && s' == s.(flash := s'.flash, w := s.w + 1, net := ExtWrite(k + 1, n))
      else s' == s.(net := ClearAvail)
    case ClearAvail => s' == s.(available := false, net := SetWritten)
    case SetWritten => s' == s.(written := true, net := Guard)
    case ErrMemset(k) =>
      s' == if k < |s.window| then s.(window := s.window[k := 0], net := ErrMemset(k + 1)) else s.(net := SetFail)
    case EndMemset(k) =>
      s' == if k < |s.window| then s.(window := s.window[k := 0], net := EndMemset(k + 1)) else s.(net := Validate)
    case Validate => s' == s.(net := if c.accepts(s.flash) then SetDone else SetFail)
    case SetDone => s' == s.(magic := MAGIC_DONE, net := Halted)
    case SetFail => s' == s.(magic := MAGIC_FAIL, net := Halted)
    case Halted => s' == s
    case NormalBoot => s' == s
  }

  /** One step in which a driver call reports an error; a failed write leaves the flash after `w` undefined. */
  ghost predicate NetErr(s: State, s': State) {
    match s.net
    case Protect => s' == s.(net := SetFail)
    case StreamInit => s' == s.(net := SetFail)
    case IntWrite(_) =>
      |s'.flash| == |s.flash| && SameBytes(s'.flash, 0, s.flash, 0, s.w) &&
      s' == s.(flash := s'.flash, net := SetFail)
    case ExtWrite(_, _) =>
      |s'.flash| == |s.flash| && SameBytes(s'.flash, 0, s.flash, 0, s.w) &&
      s' == s.(flash := s'.flash, net := ErrMemset(0))
    case _ => false
  }

  // ---------------------------------------------------------------- runs

  /** The network core is off and nothing was written yet; every shared field holds whatever RAM held. */
  ghost predicate Init(c: Config, s: State) {
    && s.app == Entry && s.net == Off && s.w == 0
    && |s.window| == PAGE && |s.flash| >= |c.image|
  }

  ghost predicate Next(c: Config, s: State, s': State)
    requires c.Fits()
  {
    s' == AppStep(c, s) || NetOk(c, s, s') || NetErr(s, s')
  }

  /** `t` can follow `s` after exactly `n` steps. */
  ghost predicate Steps(c: Config, s: State, t: State, n: nat)
    requires c.Fits()
    decreases n
  {
    if n == 0 then s == t else exists m :: Steps(c, s, m, n - 1) && Next(c, m, t)
  }

  ghost predicate Reachable(c: Config, t: State)
    requires c.Fits()
  {
    exists s, n :: Init(c, s) && Steps(c, s, t, n)
  }

  // ---------------------------------------------------------------- the invariant

  /** The length of the last chunk of an image of `len` bytes. */
  function LastChunk(len: nat): (n: nat)
    ensures len > 0 ==> 0 < n <= PAGE && n <= len && (len - n) % PAGE == 0
  {
    if len == 0 then 0 else (len - 1) % PAGE + 1
  }

  /** The network core has not started yet, or is still before its copy. */
  predicate Starting(pc: NetPc) {
    pc.Protect? || pc.CheckMagic? || pc.PreValidate? || pc.CopyMagic? || pc.StreamInit?
  }

  predicate InLoop(pc: NetPc) {
    pc.Guard? || pc.CheckAvail? || pc.LoadLen? || pc.ExtWrite? || pc.ClearAvail? || pc.SetWritten?
  }

  /** The network core is reading the shared window, or clearing it. */
  predicate UsesWindow(pc: NetPc) {
    pc.LoadLen? || pc.ExtWrite? || pc.ErrMemset? || pc.EndMemset?
  }

  /** The copy returned 0. */
  predicate CopySucceeded(pc: NetPc) {
    pc.EndMemset? || pc.Validate? || pc.SetDone?
  }

  /** The published chunk is in the window. */
  ghost predicate Published(c: Config, s: State) {
    && s.chunkLen <= s.moved
    && SameBytes(s.window, 0, c.image, s.moved - s.chunkLen, s.chunkLen)
  }

  /** The stream written so far is a prefix of the image. */
  ghost predicate InvStream(c: Config, s: State) {
    && |s.window| == PAGE && |s.flash| >= |c.image|
    && SameBytes(s.flash, 0, c.image, 0, s.w)
  }

  /** Which program counters go together. */
  ghost predicate InvPcs(c: Config, s: State) {
    && (s.app.Entry? ==> s.net.Off?)
    && (s.net.Off? ==> s.w == 0 && (s.app.Entry? || InUpdate(s.app) || s.app.PowerOn? || s.app == Returned(false)))
    && (Starting(s.net) ==> s.w == 0)
    && (!s.net.Off? || InUpdate(s.app) || s.app.PowerOn? ==> |c.image| > 0)
    && (s.app.PowerOn? ==> s.net.Off?)
  }

  /** What `magic` says about the two program counters and the verdict on the flash. */
  ghost predicate InvMagic(c: Config, s: State) {
    && !s.net.NormalBoot?
    && ((!s.app.Entry? && !s.app.Returned?) || !s.net.Off? ==> !s.net.Halted? ==> s.magic == MAGIC_COPY)
    && (s.net.Halted? ==> s.magic == MAGIC_DONE || s.magic == MAGIC_FAIL)
    && (s.net.SetDone? || (s.net.Halted? && s.magic == MAGIC_DONE) ==> c.accepts(s.flash))
    && (s.app == Returned(true) ==> s.net.Halted? && s.magic == MAGIC_DONE)
    && (s.app == Returned(false) ==> s.net.Off? || s.net.Halted?)
  }

  ghost predicate InvControl(c: Config, s: State) {
    InvPcs(c, s) && InvMagic(c, s)
  }

  /** An internal image is copied by the network core alone. */
  ghost predicate InvInternal(c: Config, s: State) {
    && !InUpdate(s.app) && !InLoop(s.net) && !s.net.ErrMemset? && !s.net.EndMemset?
    && (s.net.IntWrite? ==> s.net.k == s.w)
    && (CopySucceeded(s.net) ==> s.w == |c.image|)
    && (s.net.Halted? && s.magic == MAGIC_DONE ==> s.w == |c.image|)
  }

  /** The two chunk flags, from the moment the network core is switched on. */
  ghost predicate InvFlags(s: State) {
    && (!s.net.Off? ==> !(s.available && s.written))
    && (!s.net.Off? && InUpdate(s.app) ==> !s.available)
    && (s.app.UpdAvail? || s.app.PowerOn? ==> !s.written)
  }

  /** Who may touch the window, and how far the stream is, while the network core runs its loop. */
  ghost predicate InvLoop(c: Config, s: State) {
    && (s.net.CheckAvail? && !InUpdate(s.app) && !s.available ==> s.moved < |c.image|)
    && (InUpdate(s.app) ==>
          && (s.net.Guard? || s.net.CheckAvail?)
          && (s.app.UpdLen? || s.app.UpdCopy? || s.app.UpdMoved? ==> s.w == s.moved && s.written)
          && (s.app.UpdWritten? || s.app.UpdAvail? ==> s.w == s.moved - s.chunkLen)
          && (s.app.UpdLen? || s.app.UpdCopy? || s.app.UpdMoved? ==> s.net.CheckAvail? ==> s.moved < |c.image|)
          && ((s.app.UpdWritten? || s.app.UpdAvail?) && s.chunkLen == 0 ==> s.net.Guard? && s.moved == |c.image|))
    && (!InUpdate(s.app) && (s.net.Guard? || s.net.CheckAvail?) ==>
          && s.available != s.written
          && (s.available ==> s.w == s.moved - s.chunkLen)
          && (s.available && s.chunkLen == 0 ==> s.net.Guard? && s.moved == |c.image|)
          && (s.written ==> s.w == s.moved))
    && (s.net.LoadLen? ==> s.available && s.chunkLen > 0 && s.w == s.moved - s.chunkLen)
    && (s.net.ExtWrite? ==>
          && s.available && s.net.n == s.chunkLen > 0 && s.net.k <= s.net.n
          && s.w == s.moved - s.chunkLen + s.net.k)
    && (s.net.ClearAvail? ==> s.available && s.w == s.moved && s.chunkLen > 0)
    && (s.net.SetWritten? ==> !s.available && !s.written && s.w == s.moved && s.chunkLen > 0)
  }

  /** What is left to both cores once the network core's copy is over. */
  ghost predicate InvAfter(c: Config, s: State) {
    && s.w <= s.moved
    && (s.net.ErrMemset? ==> !InUpdate(s.app) && !s.written && s.available && s.chunkLen > 0)
    && (s.app.UpdLen? || s.app.UpdCopy? || s.app.UpdMoved? ==> s.moved == |c.image|)
    && (s.app.UpdCopy? || s.app.UpdMoved? ==> s.chunkLen == 0)
    && (s.written && !InUpdate(s.app) ==> s.moved == |c.image|)
    && (CopySucceeded(s.net) || (s.net.Halted? && s.magic == MAGIC_DONE) ==>
          s.moved == |c.image| && s.chunks > 0 && (s.w == |c.image| || s.w == (s.chunks - 1) * 4096))
  }

  /** Chunk arithmetic of `pcd_cmd_update`: `moved` counts whole pages until the image runs out. */
  ghost predicate InvCount(c: Config, s: State) {
    && |s.window| == PAGE
    && s.moved == Min(s.chunks * 4096, |c.image|)
    && (s.chunks > 0 ==> (s.chunks - 1) * 4096 < |c.image|)
    && (s.app.UpdCopy? || s.app.UpdMoved? ==> s.chunkLen == Min(PAGE, |c.image| - s.moved))
    && (s.app.UpdCopy? ==> s.app.k <= s.chunkLen)
    && (s.app.UpdWritten? || s.app.UpdAvail? || s.app.PowerOn? || (s.available && !s.net.Off?) ==>
          && s.chunkLen <= s.moved
          && s.chunks > 0 && (s.chunkLen == 0 || s.chunkLen == s.moved - (s.chunks - 1) * 4096))
  }

  /** The part of the window that `memcpy` has filled. */
  ghost predicate InvMemcpy(c: Config, s: State) {
    && (s.app.UpdCopy? ==> SameBytes(s.window, 0, c.image, s.moved, s.app.k))
    && (s.app.UpdMoved? ==> SameBytes(s.window, 0, c.image, s.moved, s.chunkLen))
  }

  /** Before the network core runs its loop: the first chunk is prepared with that core switched off. */
  ghost predicate InvStart(c: Config, s: State) {
    && !s.net.IntWrite? && !s.net.PreValidate?
    && (s.net.Off? && (s.app.UpdLen? || s.app.UpdCopy? || s.app.UpdMoved?) ==> s.moved == 0)
    && (s.net.Off? && (s.app.UpdWritten? || s.app.UpdAvail? || s.app.PowerOn?) ==>
          Published(c, s) && s.chunkLen == s.moved > 0)
    && (s.net.Off? && s.app.PowerOn? ==> s.available)
    && (Starting(s.net) ==>
          s.available && !InUpdate(s.app) && Published(c, s) && s.chunkLen == s.moved > 0)
  }

  predicate ChunksMatter(s: State) {
    (!s.app.Entry? && !s.app.Returned?) || !s.net.Off?
  }

  predicate WindowPublished(s: State) {
    InLoop(s.net) && (s.app.UpdWritten? || s.app.UpdAvail? || (!InUpdate(s.app) && !s.written))
  }

  predicate CopyOver(pc: NetPc) {
    !pc.Off? && !Starting(pc) && !InLoop(pc)
  }

  ghost predicate InvExternal(c: Config, s: State) {
    && InvFlags(s)
    && (ChunksMatter(s) ==> InvCount(c, s))
    && (ChunksMatter(s) ==> InvMemcpy(c, s))
    && InvStart(c, s)
    && (InLoop(s.net) ==> InvLoop(c, s))
    && (WindowPublished(s) ==> Published(c, s))
    && (CopyOver(s.net) ==> InvAfter(c, s))
  }

  ghost predicate Inv(c: Config, s: State) {
    && InvStream(c, s)
    && InvControl(c, s)
    && (if c.External() then InvExternal(c, s) else InvInternal(c, s))
  }

  // ---------------------------------------------------------------- every step keeps the invariant

  lemma InitEstablishesInv(c: Config, s: State)
    requires Init(c, s)
    ensures Inv(c, s)
  {}

  lemma AppKeepsControl(c: Config, s: State)
    requires c.Fits() && InvControl(c, s)
    ensures InvControl(c, AppStep(c, s))
  {
    AppKeepsPcs(c, s);
    AppKeepsMagic(c, s);
  }

  lemma AppKeepsPcs(c: Config, s: State)
    requires c.Fits() && InvPcs(c, s)
    ensures InvPcs(c, AppStep(c, s))
  {}

  lemma AppKeepsMagic(c: Config, s: State)
    requires c.Fits() && InvPcs(c, s) && InvMagic(c, s)
    ensures InvMagic(c, AppStep(c, s))
  {}

  lemma AppKeepsInternal(c: Config, s: State)
    requires c.Fits() && InvInternal(c, s) && !c.External()
    ensures InvInternal(c, AppStep(c, s))
  {}

  lemma AppKeepsStream(c: Config, s: State)
    requires c.Fits() && InvStream(c, s)
    ensures InvStream(c, AppStep(c, s))
  {}

  lemma AppCountsChunk(c: Config, s: State)
    requires c.Fits() && s.app.UpdMoved? && |c.image| > 0 && InvCount(c, s)
    requires s.available ==> s.net.Off?
    ensures InvCount(c, AppStep(c, s))
  {}

  lemma AppKeepsCount(c: Config, s: State)
    requires c.Fits() && c.External() && InvStream(c, s) && InvPcs(c, s) && InvFlags(s) && InvStart(c, s)
    requires ChunksMatter(s) ==> InvCount(c, s)
    ensures ChunksMatter(AppStep(c, s)) ==> InvCount(c, AppStep(c, s))
  {
    match s.app
    case UpdMoved => AppCountsChunk(c, s);
    case Entry => AppStartsCount(c, s);
    case UpdLen => AppSizesChunk(c, s);
    case _ => AppLeavesCount(c, s);
  }

  lemma AppStartsCount(c: Config, s: State)
    requires c.Fits() && c.External() && s.app.Entry? && InvStream(c, s) && InvPcs(c, s)
    ensures ChunksMatter(AppStep(c, s)) ==> InvCount(c, AppStep(c, s))
  {}

  lemma AppSizesChunk(c: Config, s: State)
    requires c.Fits() && s.app.UpdLen? && InvCount(c, s) && InvFlags(s)
    ensures InvCount(c, AppStep(c, s))
  {}

  lemma AppLeavesCount(c: Config, s: State)
    requires c.Fits() && c.External() && InvPcs(c, s) && InvFlags(s) && InvStart(c, s)
    requires !s.app.UpdMoved? && !s.app.Entry? && !s.app.UpdLen?
    requires ChunksMatter(s) ==> InvCount(c, s)
    ensures ChunksMatter(AppStep(c, s)) ==> InvCount(c, AppStep(c, s))
  {}

  lemma AppKeepsFlags(c: Config, s: State)
    requires c.Fits() && c.External() && InvFlags(s) && InvPcs(c, s)
    ensures InvFlags(AppStep(c, s))
  {}

  lemma AppKeepsMemcpy(c: Config, s: State)
    requires c.Fits() && c.External()
    requires ChunksMatter(s) ==> InvCount(c, s) && InvMemcpy(c, s)
    ensures ChunksMatter(AppStep(c, s)) ==> InvMemcpy(c, AppStep(c, s))
  {
    match s.app
    case UpdCopy(k) =>
    case _ =>
  }

  lemma AppKeepsStart(c: Config, s: State)
    requires c.Fits() && c.External() && InvPcs(c, s) && InvFlags(s) && InvStart(c, s)
    requires ChunksMatter(s) ==> InvCount(c, s) && InvMemcpy(c, s)
    ensures InvStart(c, AppStep(c, s))
  {}

  lemma AppKeepsLoop(c: Config, s: State)
    requires c.Fits() && c.External() && InvPcs(c, s) && InvFlags(s) && InvCount(c, s)
    requires InLoop(s.net) && InvLoop(c, s)
    ensures InvLoop(c, AppStep(c, s))
  {}

  lemma AppKeepsPublished(c: Config, s: State)
    requires c.Fits() && c.External() && InvPcs(c, s) && InvFlags(s) && InvCount(c, s) && InvMemcpy(c, s)
    requires InLoop(s.net) && InvLoop(c, s) && (WindowPublished(s) ==> Published(c, s))
    ensures WindowPublished(AppStep(c, s)) ==> Published(c, AppStep(c, s))
  {}

  lemma AppKeepsAfter(c: Config, s: State)
    requires c.Fits() && c.External() && InvPcs(c, s) && InvFlags(s) && InvCount(c, s)
    requires CopyOver(s.net) && InvAfter(c, s)
    ensures InvAfter(c, AppStep(c, s))
  {}

  /** The application core changes the other core's program counter only by switching it on. */
  lemma AppLeavesNet(c: Config, s: State)
    requires c.Fits() && InvPcs(c, s)
    ensures AppStep(c, s).net == if s.app.PowerOn? then Protect else s.net
    ensures s.app.PowerOn? ==> s.net.Off?
  {}

  lemma AppKeepsExternal(c: Config, s: State)
    requires c.Fits() && c.External() && InvStream(c, s) && InvControl(c, s) && InvExternal(c, s)
    ensures InvExternal(c, AppStep(c, s))
  {
    hide InvStream, InvPcs, InvMagic, InvFlags, InvCount, InvMemcpy, InvStart, InvLoop, InvAfter, Published, AppStep;
    AppLeavesNet(c, s);
    AppKeepsFlags(c, s);
    AppKeepsCount(c, s);
    AppKeepsStart(c, s);
    AppKeepsMemcpy(c, s);
    if InLoop(s.net) {
      AppKeepsLoop(c, s);
      AppKeepsPublished(c, s);
    }
    if CopyOver(s.net) { AppKeepsAfter(c, s); }
  }

  lemma AppKeepsInv(c: Config, s: State)
    requires c.Fits() && Inv(c, s)
    ensures Inv(c, AppStep(c, s))
  {
    hide InvStream, InvControl, InvInternal, InvExternal, AppStep;
    AppKeepsControl(c, s);
    AppKeepsStream(c, s);
    if c.External() { AppKeepsExternal(c, s); } else { AppKeepsInternal(c, s); }
  }

  ghost predicate NetNext(c: Config, s: State, s': State) {
    NetOk(c, s, s') || NetErr(s, s')
  }

  /** What a step of the network core leaves alone, without looking at the bytes it moves. */
  ghost predicate NetFrame(c: Config, s: State, s': State) {
    NetFields(s, s') && NetPhase(c, s, s')
  }

  ghost predicate NetFields(s: State, s': State) {
    && s'.app == s.app && s'.moved == s.moved && s'.chunkLen == s.chunkLen && s'.chunks == s.chunks
    && s'.available == (s.available && !s.net.ClearAvail?)
    && s'.written == (s.written || s.net.SetWritten?)
    && !s.net.Off? && !s'.net.Off?
  }

  ghost predicate NetPhase(c: Config, s: State, s': State) {
    && |s'.window| == |s.window|
    && (Starting(s'.net) ==> Starting(s.net) && s'.w == s.w && s'.window == s.window)
    && (c.External() && !s.net.IntWrite? && !s.net.PreValidate? ==> !s'.net.IntWrite? && !s'.net.PreValidate?)
  }

  lemma NetOkHasFields(c: Config, s: State, s': State)
    requires NetOk(c, s, s')
    ensures NetFields(s, s')
  {}

  lemma NetOkHasPhase(c: Config, s: State, s': State)
    requires NetOk(c, s, s')
    ensures NetPhase(c, s, s')
  {}

  lemma NetErrHasFrame(c: Config, s: State, s': State)
    requires NetErr(s, s')
    ensures NetFrame(c, s, s')
  {}

  lemma NetStepHasFrame(c: Config, s: State, s': State)
    requires NetNext(c, s, s')
    ensures NetFrame(c, s, s')
  {
    hide NetOk, NetErr, NetFields, NetPhase;
    if NetOk(c, s, s') { NetOkHasFields(c, s, s'); NetOkHasPhase(c, s, s'); } else { NetErrHasFrame(c, s, s'); }
  }

  lemma NetKeepsStreamExternal(c: Config, s: State, s': State)
    requires c.External() && InvStream(c, s) && InvStart(c, s) && InvFlags(s) && NetNext(c, s, s')
    requires InLoop(s.net) ==> InvLoop(c, s) && (WindowPublished(s) ==> Published(c, s))
    ensures InvStream(c, s')
  {}

  lemma NetKeepsStreamInternal(c: Config, s: State, s': State)
    requires InvStream(c, s) && InvInternal(c, s) && NetNext(c, s, s') && !c.External()
    ensures InvStream(c, s')
  {}

  lemma NetKeepsPcs(c: Config, s: State, s': State)
    requires InvPcs(c, s) && NetFrame(c, s, s')
    ensures InvPcs(c, s')
  {}

  lemma NetKeepsMagic(c: Config, s: State, s': State)
    requires InvPcs(c, s) && InvMagic(c, s) && NetNext(c, s, s')
    ensures InvMagic(c, s')
  {
    hide NetOk, NetErr, InvPcs, InvMagic;
    if NetOk(c, s, s') { NetOkKeepsMagic(c, s, s'); } else { NetErrKeepsMagic(c, s, s'); }
  }

  lemma NetOkKeepsMagic(c: Config, s: State, s': State)
    requires InvPcs(c, s) && InvMagic(c, s) && NetOk(c, s, s')
    ensures InvMagic(c, s')
  {}

  lemma NetErrKeepsMagic(c: Config, s: State, s': State)
    requires InvPcs(c, s) && InvMagic(c, s) && NetErr(s, s')
    ensures InvMagic(c, s')
  {}

  lemma NetKeepsInternal(c: Config, s: State, s': State)
    requires InvStream(c, s) && InvControl(c, s) && InvInternal(c, s) && NetNext(c, s, s') && !c.External()
    ensures InvInternal(c, s')
  {}

  lemma NetKeepsCount(c: Config, s: State, s': State)
    requires InvCount(c, s) && NetFrame(c, s, s') && c.External()
    ensures InvCount(c, s')
  {}

  lemma NetKeepsFlags(c: Config, s: State, s': State)
    requires InvPcs(c, s) && InvFlags(s) && NetFrame(c, s, s')
    requires InLoop(s.net) ==> InvLoop(c, s)
    ensures InvFlags(s')
  {}

  lemma NetKeepsMemcpy(c: Config, s: State, s': State)
    requires InvFlags(s) && InvCount(c, s) && InvMemcpy(c, s) && NetNext(c, s, s') && c.External()
    requires CopyOver(s.net) ==> InvAfter(c, s)
    ensures InvMemcpy(c, s')
  {}

  lemma NetKeepsStart(c: Config, s: State, s': State)
    requires InvPcs(c, s) && InvStart(c, s) && NetFrame(c, s, s') && c.External()
    ensures InvStart(c, s')
  {}

  lemma NetKeepsPublished(c: Config, s: State, s': State)
    requires InvPcs(c, s) && InvFlags(s) && InvStart(c, s) && NetNext(c, s, s') && c.External()
    requires WindowPublished(s) ==> Published(c, s)
    requires InLoop(s.net) ==> InvLoop(c, s)
    ensures WindowPublished(s') ==> Published(c, s')
  {}

  lemma NetKeepsLoop(c: Config, s: State, s': State)
    requires InvPcs(c, s) && InvFlags(s) && InvStart(c, s) && InvCount(c, s) && NetNext(c, s, s') && c.External()
    requires InLoop(s.net) ==> InvLoop(c, s)
    ensures InLoop(s'.net) ==> InvLoop(c, s')
  {
    hide NetOk, NetErr, InvPcs, InvFlags, InvStart, InvCount, InvLoop;
    if NetErr(s, s') {
      ErrorLeavesLoop(s, s');
    } else if InLoop(s.net) {
      LoopStepKeepsLoop(c, s, s');
    } else {
      EnteringLoop(c, s, s');
    }
  }

  lemma LoopStepKeepsLoop(c: Config, s: State, s': State)
    requires InvFlags(s) && InvCount(c, s) && InvLoop(c, s) && InLoop(s.net) && NetOk(c, s, s') && c.External()
    ensures InLoop(s'.net) ==> InvLoop(c, s')
  {
    match s.net
    case Guard => GuardKeepsLoop(c, s, s');
    case CheckAvail => CheckKeepsLoop(c, s, s');
    case _ =>
  }

  lemma GuardKeepsLoop(c: Config, s: State, s': State)
    requires InvFlags(s) && InvLoop(c, s) && s.net.Guard? && NetOk(c, s, s') && c.External()
    ensures InLoop(s'.net) ==> InvLoop(c, s')
  {}

  lemma CheckKeepsLoop(c: Config, s: State, s': State)
    requires InvFlags(s) && InvCount(c, s) && InvLoop(c, s) && s.net.CheckAvail? && NetOk(c, s, s') && c.External()
    ensures InvLoop(c, s')
  {}

  /** The loop is entered with the first chunk published. */
  lemma EnteringLoop(c: Config, s: State, s': State)
    requires InvPcs(c, s) && InvFlags(s) && InvStart(c, s) && !InLoop(s.net) && NetOk(c, s, s') && c.External()
    ensures InLoop(s'.net) ==> InvLoop(c, s')
  {}

  lemma ErrorLeavesLoop(s: State, s': State)
    requires NetErr(s, s')
    ensures !InLoop(s'.net)
  {}

  lemma NetKeepsAfter(c: Config, s: State, s': State)
    requires InvControl(c, s) && InvFlags(s) && InvStart(c, s) && InvCount(c, s) && NetNext(c, s, s') && c.External()
    requires InLoop(s.net) ==> InvLoop(c, s)
    requires CopyOver(s.net) ==> InvAfter(c, s)
    ensures CopyOver(s'.net) ==> InvAfter(c, s')
  {
    assert !s.net.IntWrite? && !s.net.PreValidate?;
    hide NetOk, NetErr, InvPcs, InvMagic, InvFlags, InvStart, InvCount, InvLoop, InvAfter;
    if CopyOver(s.net) {
      AfterStaysAfter(c, s, s');
    } else if InLoop(s.net) {
      LeavingLoop(c, s, s');
    } else {
      FailingEarly(c, s, s');
    }
  }

  lemma AfterStaysAfter(c: Config, s: State, s': State)
    requires InvPcs(c, s) && InvAfter(c, s) && CopyOver(s.net) && NetNext(c, s, s')
    requires !s.net.IntWrite? && !s.net.PreValidate?
    ensures InvAfter(c, s')
  {}

  lemma LeavingLoop(c: Config, s: State, s': State)
    requires InvPcs(c, s) && InvFlags(s) && InvCount(c, s) && InvLoop(c, s) && InLoop(s.net) && NetNext(c, s, s')
    ensures CopyOver(s'.net) ==> InvAfter(c, s')
  {}

  lemma FailingEarly(c: Config, s: State, s': State)
    requires InvPcs(c, s) && InvFlags(s) && InvStart(c, s) && !InLoop(s.net) && !CopyOver(s.net)
    requires NetNext(c, s, s') && c.External()
    ensures CopyOver(s'.net) ==> InvAfter(c, s')
  {}

  lemma NetKeepsExternal(c: Config, s: State, s': State)
    requires c.Fits() && c.External() && InvStream(c, s) && InvControl(c, s) && InvExternal(c, s) && NetNext(c, s, s')
    ensures InvExternal(c, s') && InvStream(c, s')
  {
    hide InvStream, InvPcs, InvMagic, InvFlags, InvCount, InvMemcpy, InvStart, InvLoop, InvAfter, Published;
    NetStepHasFrame(c, s, s');
    NetKeepsFlags(c, s, s');
    assert !s.net.Off?;
    NetKeepsStreamExternal(c, s, s');
    NetKeepsCount(c, s, s');
    NetKeepsMemcpy(c, s, s');
    NetKeepsStart(c, s, s');
    NetKeepsPublished(c, s, s');
    NetKeepsLoop(c, s, s');
    NetKeepsAfter(c, s, s');
  }

  lemma NetKeepsInv(c: Config, s: State, s': State)
    requires c.Fits() && Inv(c, s) && NetNext(c, s, s')
    ensures Inv(c, s')
  {
    hide InvStream, InvPcs, InvMagic, InvInternal, InvExternal, NetOk, NetErr, NetFrame;
    NetStepHasFrame(c, s, s');
    NetKeepsPcs(c, s, s');
    NetKeepsMagic(c, s, s');
    if c.External() {
      NetKeepsExternal(c, s, s');
    } else {
      NetKeepsStreamInternal(c, s, s');
      NetKeepsInternal(c, s, s');
    }
  }
}
