/** The shared command block as sequential code sees it: each routine run to its end, with the other core quiet. */
module PcdCommand {
  import opened Bytes
  import opened PcdProtocol
  import opened PcdSafety
  import opened PcdVerdict

  datatype Status = StatusCopy | StatusCopyDone | StatusCopyFailed

  function StatusOf(magic: nat): Status {
    if magic == MAGIC_COPY then StatusCopy else if magic == MAGIC_DONE then StatusCopyDone else StatusCopyFailed
  }

  /**
   What the status tells the application core once the network core is on, in any run: it reads as copying exactly until
   the network core has halted, as done only over a flash that the firmware check accepts, and as failed otherwise.
   */
  lemma StatusTellsOutcome(c: Config, s: State)
    requires c.Fits() && Reachable(c, s) && !s.net.Off?
    ensures StatusOf(s.magic).StatusCopy? <==> !s.net.Halted?
    ensures StatusOf(s.magic).StatusCopyDone? ==> c.accepts(s.flash)
    ensures !c.accepts(s.flash) && s.net.Halted? ==> StatusOf(s.magic).StatusCopyFailed?
  {
    ReachableInv(c, s);
  }

  class PcdCmd {
    var magic: nat
    var data: nat
    var len: uint32
    var offset: int
    var moved: uint32
    var chunkLen: uint32
    var available: bool
    var written: bool
    const window: array<Byte>

    constructor (window: array<Byte>)
      ensures this.window == window
    {
      this.window := window;
    }

    /** `pcd_cmd_update`: puts the next page of the image, if any is left, in the window and raises the flag. */
    method Update(image: seq<Byte>)
      requires window.Length == PAGE && |image| == len && moved <= len
      modifies `moved, `chunkLen, `available, `written, window
      ensures data < XIP_BASE ==> unchanged(this) && unchanged(window)
      ensures data >= XIP_BASE ==>
                && chunkLen == Min(PAGE, len - old(moved)) && moved == old(moved) + chunkLen
                && available && !written
                && SameBytes(window[..], 0, image, old(moved), chunkLen)
                && forall i :: chunkLen <= i < PAGE ==> window[i] == old(window[i])
    {
      if data >= XIP_BASE {
        var bytesLeft := Sub32(len, moved);
        chunkLen := if bytesLeft > PAGE then PAGE else bytesLeft;
        var k := 0;
        while k < chunkLen
          invariant 0 <= k <= chunkLen
          invariant SameBytes(window[..], 0, image, moved, k)
          invariant forall i :: k <= i < window.Length ==> window[i] == old(window[i])
          modifies window
        {
          window[k] := image[moved + k];
          k := k + 1;
        }
        moved := Add32(moved, chunkLen);
        written := false;
        available := true;
      }
    }

    /** `pcd_cmd_write`: refuses NULL and empty images, otherwise describes the image and publishes its first page. */
    method Write(data: nat, image: seq<Byte>, offset: int) returns (ok: bool)
      requires window.Length == PAGE && |image| < 0x1_0000_0000
      modifies this, window
      ensures ok == (data != 0 && |image| > 0)
      ensures !ok ==> unchanged(this) && unchanged(window)
      ensures ok ==> magic == MAGIC_COPY && this.data == data && len == |image| && this.offset == offset
      ensures ok && data >= XIP_BASE ==>
                && chunkLen == moved == Min(PAGE, |image|) && available && !written
                && SameBytes(window[..], 0, image, 0, chunkLen)
      ensures ok && data < XIP_BASE ==>
                moved == 0 && available == old(available) && written == old(written) && unchanged(window)
    {
      if data == 0 || |image| == 0 { return false; }
      magic := MAGIC_COPY;
      this.data := data;
      len := |image|;
      this.offset := offset;
      moved := 0;
      Update(image);
      return true;
    }

    method StatusGet() returns (status: Status)
      ensures status == StatusOf(magic)
    {
      if magic == MAGIC_COPY { return StatusCopy; }
      if magic == MAGIC_DONE { return StatusCopyDone; }
      return StatusCopyFailed;
    }
  }

  /**
   The steps of `pcd_cmd_update` in the two-core model, taken without interference, have the effect that
   `PcdCmd.Update` states for the same routine.
   */
  lemma UpdateStepsMatchUpdate(c: Config, t: State) returns (t': State, n: nat)
    requires c.Fits() && t.app.UpdLen? && |t.window| == PAGE && t.moved <= |c.image|
    ensures Steps(c, t, t', n)
    ensures t'.chunkLen == Min(PAGE, |c.image| - t.moved) && t'.moved == t.moved + t'.chunkLen
    ensures t'.available && !t'.written && t'.app == AfterUpdate(t) && t'.net == t.net
    ensures SameBytes(t'.window, 0, c.image, t.moved, t'.chunkLen)
    ensures |t'.window| == PAGE && t'.window[t'.chunkLen..] == t.window[t'.chunkLen..]
  {
    hide Steps;
    StepsZero(c, t);
    t' := ThenApp(c, t, t, 0);
    t', n := CopyWindow(c, t, t', 1, t.window);
    t' := ThenApp(c, t, t', n);
    t' := ThenApp(c, t, t', n + 1);
    t' := ThenApp(c, t, t', n + 2);
    t' := ThenApp(c, t, t', n + 3);
    n := n + 4;
  }
}
