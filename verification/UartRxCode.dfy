/**
 The receive half of the adapter and its client as code on mutable fields, proved to have the effects `UartRx` defines.
 */
module UartRxCode {
  import opened Bytes
  import opened Buffers
  import opened UartRx

  /** The struct `rx` inside the adapter's data; positions are offsets into `buf`. */
  datatype RxPart = RxPart(
    buf: Option<BufId>, curr: nat, lastNotify: nat, sizeLeft: nat, nextBuf: Option<BufId>, nextLen: nat, enabled: bool)

  /** What `UartRx.State` records of the past. */
  datatype History = History(
    arrived: seq<Byte>, kept: seq<Byte>, delivered: seq<Byte>, lost: bool, starved: bool, badFree: bool)

  /** One round of the read loop, and what it keeps. */
  lemma RoundKeeps(c: Config, s: State, rounds: seq<Round>, notifyNow: bool, r: Round)
    requires Inv(c, s) && !s.retryPending
    requires r == if |rounds| > 0 then rounds[0] else Round(0, None, None)
    ensures var s' := Refill(c, s, r);
            var pending := notifyNow && s.sizeLeft > 0;
            && (CanRead(c, s') <==> s'.sizeLeft > 0)
            && (!CanRead(c, s') ==> Inv(c, DropAll(s')) && ReadLoop(c, s, rounds, notifyNow) == (DropAll(s'), pending))
            && (CanRead(c, s') ==>
                  var s'' := UartRx.ReadFifo(s', r.limit);
                  && Inv(c, s'') && !s''.retryPending
                  && ReadLoop(c, s, rounds, notifyNow) ==
                     if ReadCount(s', r.limit) == 0 || |rounds| == 0 then (s'', pending || c.atOnce)
                     else ReadLoop(c, s'', rounds[1..], pending || c.atOnce))
  {
    hide Inv, Refill, ReadFifo, DropAll;
    var s' := Refill(c, s, r);
    RefillKeeps(c, s, r);
    if CanRead(c, s') { ReadKeeps(c, s', r.limit); } else { DropKeeps(c, s'); }
  }

  lemma RetryMeansOff(c: Config, s: State)
    requires Inv(c, s) && s.enabled
    ensures !s.retryPending
  {}

  class RxBridge {
    const c: Config

    var rx: RxPart

    // the static variables of uart_cb, the queue to the radio, the scheduled retry
    var currentBuf: Option<BufId>
    var bufRelease: bool
    var rxFifo: seq<BufId>
    var retryPending: bool

    var pool: map<BufId, Buffer>
    var hw: seq<Byte>

    ghost var past: History

    ghost function View(): State
      reads this
    {
      State(rx.buf, rx.curr, rx.lastNotify, rx.sizeLeft, rx.nextBuf, rx.nextLen, rx.enabled,
            currentBuf, bufRelease, rxFifo, retryPending, pool, hw,
            past.arrived, past.kept, past.delivered, past.lost, past.starved, past.badFree)
    }

    /** `uart_init`. */
    constructor (c: Config, first: BufId)
      ensures this.c == c && View() == Start(c, first)
    {
      this.c := c;
      rx := RxPart(None, 0, 0, 0, Some(first), c.cap, true);
      currentBuf, bufRelease, rxFifo, retryPending := None, false, [], false;
      pool := map[first := Buffer(seq(c.cap, _ => 0), 0)];
      hw, past := [], History([], [], [], false, false, false);
    }

    method AllocBuffer(answer: Option<BufId>) returns (id: Option<BufId>)
      modifies this
      ensures (View(), id) == Malloc(c, old(View()), answer)
    {
      if answer.Some? && answer.value !in pool {
        pool := pool[answer.value := Buffer(seq(c.cap, _ => 0), 0)];
        return answer;
      }
      past := past.(starved := true);
      return None;
    }

    method FreeBuffer(id: BufId)
      modifies this
      ensures View() == Free(old(View()), id)
    {
      past := past.(badFree := past.badFree || id !in pool);
      pool := pool - {id};
    }

    method EnableRx(id: BufId)
      modifies this
      ensures View() == RxEnable(c, old(View()), id)
    {
      rx := rx.(buf := None, curr := 0, sizeLeft := 0);
      rx := rx.(nextBuf := Some(id), nextLen := c.cap, enabled := true);
    }

    method BufferReleased(id: BufId)
      modifies this
      ensures View() == OnReleased(old(View()), id)
    {
      if bufRelease && currentBuf != Some(id) {
        FreeBuffer(id);
        bufRelease, currentBuf := false, None;
      }
    }

    method SwitchRxBuffer()
      modifies this
      ensures View() == SwitchBuffer(old(View()))
    {
      var oldBuf := rx.buf;
      rx := rx.(buf := rx.nextBuf, curr := 0, lastNotify := 0, sizeLeft := rx.nextLen);
      rx := rx.(nextBuf := None, nextLen := 0);
      if oldBuf.Some? { BufferReleased(oldBuf.value); }
    }

    method RxDisabled(answer: Option<BufId>)
      modifies this
      ensures View() == OnDisabled(c, old(View()), answer)
    {
      var id := AllocBuffer(answer);
      if id.None? {
        retryPending := true;
      } else {
        EnableRx(id.value);
      }
    }

    method DisableRx(answer: Option<BufId>)
      modifies this
      ensures View() == RxDisable(c, old(View()), answer)
    {
      rx := rx.(enabled := false);
      ghost var start := View();
      while rx.buf.Some?
        invariant ReleaseAll(start) == ReleaseAll(View())
        decreases rx.buf.Some?, rx.nextBuf.Some?
      {
        SwitchRxBuffer();
      }
      RxDisabled(answer);
    }

    method RxReadyEvent(id: BufId, n: nat, answer: Option<BufId>)
      requires id in pool && 0 < pool[id].len + n <= |pool[id].data|
      modifies this
      ensures View() == OnReady(c, old(View()), id, n, answer)
    {
      var b := pool[id].(len := pool[id].len + n);
      pool, bufRelease := pool[id := b], false;
      if b.len == c.cap {
        rxFifo := rxFifo + [id];
      } else if b.data[b.len - 1] == LF || b.data[b.len - 1] == CR {
        rxFifo, currentBuf, bufRelease := rxFifo + [id], Some(id), true;
        DisableRx(answer);
      }
    }

    method NotifyRxBuffer(answer: Option<BufId>)
      requires Inv(c, View())
      modifies this
      ensures View() == Notify(c, old(View()), answer)
    {
      if rx.buf.Some? && rx.curr > rx.lastNotify {
        NotifyUnfolds(c, View(), answer);
        var n := rx.curr - rx.lastNotify;
        rx := rx.(lastNotify := rx.curr);
        RxReadyEvent(rx.buf.value, n, answer);
      }
    }

    method BufferRequested(answer: Option<BufId>)
      modifies this
      ensures View() == OnRequest(c, old(View()), answer)
    {
      var id := AllocBuffer(answer);
      if id.Some? && rx.nextBuf.None? { rx := rx.(nextBuf := id, nextLen := c.cap); }
    }

    method FifoRead(limit: nat) returns (n: nat)
      requires CanRead(c, View())
      modifies this
      ensures n == ReadCount(old(View()), limit) && View() == UartRx.ReadFifo(old(View()), limit)
    {
      n := Min(limit, Min(rx.sizeLeft, |hw|));
      var b := pool[rx.buf.value];
      pool := pool[rx.buf.value := b.(data := b.data[..rx.curr] + hw[..n] + b.data[rx.curr + n..])];
      past := past.(kept := past.kept + hw[..n]);
      rx := rx.(curr := rx.curr + n, sizeLeft := rx.sizeLeft - n);
      hw := hw[n..];
    }

    /** The head of one round of `on_rx_ready`. */
    method RefillBuffer(r: Round) returns (refilled: bool)
      requires Inv(c, View()) && !retryPending
      modifies this
      ensures View() == Refill(c, old(View()), r) && refilled == (old(rx).sizeLeft == 0)
    {
      hide Inv, SwitchBuffer, OnRequest, Notify;
      refilled := rx.sizeLeft == 0;
      if refilled {
        NotifyRxBuffer(r.onLine);
        SwitchRxBuffer();
        BufferRequested(r.onRequest);
      }
    }

    /** The drain loop of `on_rx_ready`, reached without a buffer. */
    method DropWaiting()
      modifies this
      ensures View() == DropAll(old(View()))
    {
      past := past.(lost := past.lost || |hw| > 0);
      hw := [];
    }

    /** The read loop of `on_rx_ready`: refill when the buffer is used up, read until a read returns nothing. */
    method ReadAll(rounds: seq<Round>) returns (notifyNow: bool)
      requires Inv(c, View()) && !retryPending
      modifies this
      ensures (View(), notifyNow) == ReadLoop(c, old(View()), rounds, false) && Inv(c, View())
    {
      hide Inv, Refill, ReadLoop, ReadFifo, DropAll;
      ghost var start := View();
      notifyNow := false;
      var i, more := 0, true;
      assert rounds[0..] == rounds;
      while more
        invariant 0 <= i <= |rounds| && Inv(c, View())
        invariant more ==> !retryPending
        invariant more ==> ReadLoop(c, start, rounds, false) == ReadLoop(c, View(), rounds[i..], notifyNow)
        invariant !more ==> ReadLoop(c, start, rounds, false) == (View(), notifyNow)
        decreases |rounds| - i, more
      {
        var r := if i < |rounds| then rounds[i] else Round(0, None, None);
        RoundKeeps(c, View(), rounds[i..], notifyNow, r);
        var refilled := RefillBuffer(r);
        notifyNow := notifyNow && !refilled;
        if rx.sizeLeft == 0 {
          DropWaiting();
          more := false;
        } else {
          var n := FifoRead(r.limit);
          notifyNow := notifyNow || c.atOnce;
          more := n > 0 && i < |rounds|;
          if more {
            assert rounds[i..][1..] == rounds[i + 1..];
            i := i + 1;
          }
        }
      }
    }

    /** `on_rx_ready`. */
    method OnRxReady(rounds: seq<Round>, onLine: Option<BufId>)
      requires Inv(c, View())
      modifies this
      ensures View() == Handle(c, old(View()), RxReady(rounds, onLine))
      ensures Inv(c, View())
    {
      HandleKeeps(c, View(), RxReady(rounds, onLine));
      if rx.enabled {
        RetryMeansOff(c, View());
        hide Inv, ReadLoop;
        var notifyNow := ReadAll(rounds);
        if notifyNow { NotifyRxBuffer(onLine); }
      }
    }

    /** One turn of `ble_write_thread`. */
    method WriteToRadio() returns (sent: Option<seq<Byte>>)
      requires Inv(c, View())
      modifies this
      ensures View() == Handle(c, old(View()), RadioSend)
      ensures sent.Some? <==> |old(rxFifo)| > 0
      ensures sent.Some? ==> past.delivered == old(past.delivered) + sent.value
    {
      if |rxFifo| == 0 { return None; }
      var id := rxFifo[0];
      FirstIsOwned(c, View(), Holding(c, View()));
      rxFifo := rxFifo[1..];
      var data := pool[id].data[..pool[id].len];
      past := past.(delivered := past.delivered + data);
      FreeBuffer(id);
      return Some(data);
    }
  }
}
