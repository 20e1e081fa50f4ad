/**
 The transmit half of the adapter and its client as code on mutable fields, proved to have the effects `UartTx`
 defines.
 */
module UartTxCode {
  import opened Bytes
  import opened Buffers
  import opened UartTx

  datatype History = History(output: seq<Byte>, accepted: seq<Byte>, badFree: bool)

  class TxBridge {
    const cap: nat

    var tx: TxPart

    // the static variables of uart_cb, the queue from the radio, the allocated buffers
    var abortedBuf: Option<Ptr>
    var abortedLen: nat
    var txFifo: seq<BufId>
    var pool: map<BufId, Buffer>

    ghost var past: History

    ghost function View(): State
      reads this
    {
      State(tx, abortedBuf, abortedLen, txFifo, pool, past.output, past.accepted, past.badFree)
    }

    constructor (cap: nat)
      ensures this.cap == cap && View() == START
    {
      this.cap := cap;
      tx, abortedBuf, abortedLen, txFifo, pool := IDLE, None, 0, [], map[];
      past := History([], [], false);
    }

    /** `uart_tx`. */
    method StartTx(p: Ptr, len: nat) returns (ok: bool)
      modifies this
      ensures (View(), ok) == Send(old(View()), p, len)
    {
      if len == 0 { return true; }
      if tx.buf.Some? { return false; }
      tx := TxPart(Some(p), p.at, len, true);
      return true;
    }

    method FreeBuffer(p: Ptr)
      modifies this
      ensures View() == Free(old(View()), p)
    {
      past := past.(badFree := past.badFree || p.id !in pool || p.at != 0);
      pool := pool - {p.id};
    }

    method AbortTx()
      modifies this
      ensures View() == TxAbort(old(View()))
    {
      tx := tx.(enabled := false);
      if tx.buf.Some? {
        var p, n := tx.buf.value, Minus(tx.curr, tx.buf.value.at);
        tx := IDLE;
        TxAborted(p, n);
      }
    }

    method TxAborted(p: Ptr, n: nat)
      modifies this
      ensures View() == OnAborted(old(View()), p, n)
    {
      if abortedBuf.None? { abortedBuf := Some(p); }
      abortedLen := abortedLen + n;
      var id := abortedBuf.value.id;
      var len := if id in pool then pool[id].len else 0;
      var _ := StartTx(Ptr(id, abortedLen), Minus(len, abortedLen));
    }

    method TxDone(p: Ptr, n: nat)
      modifies this
      ensures View() == OnDone(old(View()), p, n)
    {
      if n == 0 { return; }
      var finished := p;
      if abortedBuf.Some? {
        finished := abortedBuf.value;
        abortedBuf, abortedLen := None, 0;
      }
      FreeBuffer(finished);
      if |txFifo| > 0 {
        var id := txFifo[0];
        txFifo := txFifo[1..];
        var _ := StartTx(Ptr(id, 0), if id in pool then pool[id].len else 0);
      }
    }

    /** `on_tx_ready`; the UART answers `room` to the fill. */
    method OnTxReady(room: nat)
      modifies this
      ensures View() == TxReady(old(View()), room)
    {
      if tx.sizeLeft > 0 && tx.buf.Some? {
        var n := Min(room, tx.sizeLeft);
        if n > 0 {
          past := past.(output := past.output + Slice(pool, tx.buf.value.id, tx.curr, tx.curr + n));
          tx := tx.(curr := tx.curr + n, sizeLeft := tx.sizeLeft - n);
        }
      }
    }

    method OnTxComplete()
      modifies this
      ensures View() == TxComplete(old(View()))
    {
      if tx.sizeLeft == 0 {
        tx := tx.(enabled := false);
        if tx.buf.Some? {
          var p, n := tx.buf.value, Minus(tx.curr, tx.buf.value.at);
          tx := IDLE;
          TxDone(p, n);
        }
      }
    }

    /** The body of the receive loop after the allocation. */
    method SubmitChunk(id: BufId, bytes: seq<Byte>)
      requires |bytes| <= cap
      modifies this
      ensures View() == Submit(cap, old(View()), id, bytes)
    {
      pool := pool[id := Buffer(bytes + seq(cap - |bytes|, _ => 0), |bytes|)];
      past := past.(accepted := past.accepted + bytes);
      var ok := StartTx(Ptr(id, 0), |bytes|);
      if !ok { txFifo := txFifo + [id]; }
    }

    /** `bt_receive_cb`: cut the message into buffers until it is used up or there is no memory. */
    method OnBtReceive(data: seq<Byte>, answers: seq<Option<BufId>>) returns (pos: nat)
      requires cap > 0
      modifies this
      ensures (View(), pos) == Receive(cap, old(View()), data, 0, answers)
      ensures cap >= 2 && Inv(old(View())) ==>
                Inv(View()) && past.accepted == old(past.accepted) + AcceptedPart(data, 0, pos)
    {
      hide Inv, Submit;
      ghost var start := View();
      if cap >= 2 && Inv(start) { ReceiveAccepts(cap, start, data, 0, answers); }
      pos := 0;
      var i := 0;
      assert answers[0..] == answers;
      while pos != |data|
        invariant i <= |answers| && pos <= |data|
        invariant Receive(cap, start, data, 0, answers) == Receive(cap, View(), data, pos, answers[i..])
        decreases |answers| - i
      {
        if i == |answers| || answers[i].None? || answers[i].value in pool { return; }
        assert answers[i..][1..] == answers[i + 1..];
        SubmitChunk(answers[i].value, Chunk(cap, data, pos));
        pos := pos + Take(cap, data, pos);
        i := i + 1;
      }
    }
  }
}
