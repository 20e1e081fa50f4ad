/**
 Sending over the UART: radio data is cut into buffers, the first is handed to the adapter and the rest are queued, the
 adapter pushes the bytes into the UART, and the client resumes what an abort interrupts.  Every handler is one atomic
 step.  This module defines the handlers as functions on the joint state; `UartTxCode` has the code, with the same
 effects.
 */
module UartTx {
  import opened Bytes
  import opened Buffers

  /** An address inside a buffer: the block and the offset in its `data`. */
  datatype Ptr = Ptr(id: BufId, at: nat)

  /** The struct `tx` inside the adapter's data; `curr` is an offset into the block of `buf`, 0 when that is null. */
  datatype TxPart = TxPart(buf: Option<Ptr>, curr: nat, sizeLeft: nat, enabled: bool)

  const IDLE := TxPart(None, 0, 0, false)

  datatype State = State(
    tx: TxPart,
    // the client's static variables and its queue from the radio
    abortedBuf: Option<Ptr>, abortedLen: nat, txFifo: seq<BufId>, pool: map<BufId, Buffer>,
    // history: what was pushed into the UART, what was accepted from the radio, whether a free was wrong
    output: seq<Byte>, accepted: seq<Byte>, badFree: bool)

  const START := State(IDLE, None, 0, [], map[], [], [], false)

  // ---------------------------------------------------------------- the adapter and the client's callbacks

  /** `uart_tx`: nothing happens for no data, and it fails while a transfer is under way. */
  function Send(s: State, p: Ptr, len: nat): (State, bool) {
    if len == 0 then (s, true)
    else if s.tx.buf.Some? then (s, false)
    else (s.(tx := TxPart(Some(p), p.at, len, true)), true)
  }

  function LenOf(s: State, id: BufId): nat {
    if id in s.pool then s.pool[id].len else 0
  }

  /** `k_free` of the block that the address is the `data` of. */
  function Free(s: State, p: Ptr): State {
    s.(pool := s.pool - {p.id}, badFree := s.badFree || p.id !in s.pool || p.at != 0)
  }

  /** `a - b` as C computes it on a 32-bit `size_t`. */
  function Minus(a: nat, b: nat): nat {
    if b <= a then a - b else (a - b) % 0x1_0000_0000
  }

  /** It is the value that, added to `b`, gives `a`, up to a wrap-around. */
  lemma MinusWraps(a: nat, b: nat)
    requires a < 0x1_0000_0000 && b < 0x1_0000_0000
    ensures Minus(a, b) < 0x1_0000_0000 && (Minus(a, b) + b == a || Minus(a, b) + b == a + 0x1_0000_0000)
  {}

  /** Freeing what is not allocated, or not through the address of its block, does not go unnoticed. */
  lemma WrongFreeIsNoted(s: State, p: Ptr)
    ensures Free(s, p).badFree <==> s.badFree || p.id !in s.pool || p.at != 0
    ensures forall i :: i in Free(s, p).pool <==> i in s.pool && i != p.id
  {}

  /** The client's `UART_TX_ABORTED` for a transfer from `p` of which `n` bytes were pushed: send the rest. */
  function OnAborted(s: State, p: Ptr, n: nat): State {
    var b := if s.abortedBuf.None? then p else s.abortedBuf.value;
    var l := s.abortedLen + n;
    Send(s.(abortedBuf := Some(b), abortedLen := l), Ptr(b.id, l), Minus(LenOf(s, b.id), l)).0
  }

  function TxAbort(s: State): State {
    if s.tx.buf.None? then s.(tx := s.tx.(enabled := false))
    else OnAborted(s.(tx := IDLE), s.tx.buf.value, Minus(s.tx.curr, s.tx.buf.value.at))
  }

  /** The client sends what it has queued first. */
  function SendNext(s: State): State {
    if |s.txFifo| == 0 then s
    else Send(s.(txFifo := s.txFifo[1..]), Ptr(s.txFifo[0], 0), LenOf(s, s.txFifo[0])).0
  }

  /** The client's `UART_TX_DONE`: free the buffer, whose address it has from the first abort if there was one. */
  function OnDone(s: State, p: Ptr, n: nat): State {
    if n == 0 then s
    else if s.abortedBuf.Some? then SendNext(Free(s.(abortedBuf := None, abortedLen := 0), s.abortedBuf.value))
    else SendNext(Free(s, p))
  }

  /** The bytes `data[i..j]` of a block. */
  function Slice(pool: map<BufId, Buffer>, id: BufId, i: nat, j: nat): seq<Byte> {
    if id in pool && i <= j <= |pool[id].data| then pool[id].data[i..j] else []
  }

  /** `on_tx_ready`, where the UART takes at most `room` bytes. */
  function TxReady(s: State, room: nat): State {
    var n := Min(room, s.tx.sizeLeft);
    if n == 0 || s.tx.buf.None? then s
    else s.(tx := s.tx.(curr := s.tx.curr + n, sizeLeft := s.tx.sizeLeft - n),
            output := s.output + Slice(s.pool, s.tx.buf.value.id, s.tx.curr, s.tx.curr + n))
  }

  function TxComplete(s: State): State {
    if s.tx.sizeLeft != 0 then s
    else if s.tx.buf.None? then s.(tx := s.tx.(enabled := false))
    else OnDone(s.(tx := IDLE), s.tx.buf.value, Minus(s.tx.curr, s.tx.buf.value.at))
  }

  // ---------------------------------------------------------------- data from the radio

  /** How much of `data` goes into one buffer, whose last byte is kept for a line feed. */
  function Take(cap: nat, data: seq<Byte>, pos: nat): nat
    requires cap > 0 && pos <= |data|
  {
    Min(|data| - pos, cap - 1)
  }

  /** Whether a line feed follows: the message, read to its end, ends with a carriage return. */
  predicate NeedsLF(data: seq<Byte>, pos: nat) {
    pos == |data| > 0 && data[|data| - 1] == CR
  }

  function Chunk(cap: nat, data: seq<Byte>, pos: nat): (bytes: seq<Byte>)
    requires cap > 0 && pos < |data|
    ensures |bytes| <= cap
  {
    var n := Take(cap, data, pos);
    data[pos..pos + n] + if NeedsLF(data, pos + n) then [LF] else []
  }

  /** The state after a chunk has been copied into a fresh block. */
  function Filled(cap: nat, s: State, id: BufId, bytes: seq<Byte>): (r: State)
    requires |bytes| <= cap
    ensures id in r.pool && |r.pool[id].data| == cap && Meant(id, r.pool) == bytes
  {
    s.(pool := s.pool[id := Buffer(bytes + seq(cap - |bytes|, _ => 0), |bytes|)], accepted := s.accepted + bytes)
  }

  /** A buffer is filled and sent, or queued if the adapter is busy. */
  function Submit(cap: nat, s: State, id: BufId, bytes: seq<Byte>): State
    requires |bytes| <= cap
  {
    var (s', ok) := Send(Filled(cap, s, id, bytes), Ptr(id, 0), |bytes|);
    if ok then s' else s'.(txFifo := s'.txFifo + [id])
  }

  /** One pass of the loop of `bt_receive_cb`, unless `k_malloc` fails, and where the loop then is. */
  function Pass(cap: nat, s: State, data: seq<Byte>, pos: nat, answer: Option<BufId>): (State, Option<nat>)
    requires cap > 0 && pos < |data|
  {
    if answer.Some? && answer.value !in s.pool then
      (Submit(cap, s, answer.value, Chunk(cap, data, pos)), Some(pos + Take(cap, data, pos)))
    else (s, None)
  }

  /**
   `bt_receive_cb` from position `pos` on, and the position it reaches; when the answers run out, there is no memory.
   */
  function Receive(cap: nat, s: State, data: seq<Byte>, pos: nat, answers: seq<Option<BufId>>): (r: (State, nat))
    requires cap > 0 && pos <= |data|
    ensures r.1 <= |data|
    decreases |answers|
  {
    if pos == |data| || |answers| == 0 then (s, pos)
    else
      match Pass(cap, s, data, pos, answers[0])
      case (s', None) => (s', pos)
      case (s', Some(pos')) => Receive(cap, s', data, pos', answers[1..])
  }

  // ---------------------------------------------------------------- handlers

  /** `OneChunk` is one pass of the receive loop, so that interrupts can come between any two of them. */
  datatype Event =
    | OneChunk(data: seq<Byte>, pos: nat, answer: Option<BufId>)
    | Ready(room: nat)
    | Complete
    | Abort

  /** The adapter's interrupts come only while sending is enabled. */
  function Handle(cap: nat, s: State, e: Event): State
    requires cap > 0
  {
    match e
    case OneChunk(data, pos, answer) => if pos < |data| then Pass(cap, s, data, pos, answer).0 else s
    case Ready(room) => if s.tx.enabled then TxReady(s, room) else s
    case Complete => if s.tx.enabled then TxComplete(s) else s
    case Abort => TxAbort(s)
  }

  function Run(cap: nat, s: State, events: seq<Event>): State
    requires cap > 0
    decreases |events|
  {
    if |events| == 0 then s else Handle(cap, Run(cap, s, events[..|events| - 1]), events[|events| - 1])
  }

  // ---------------------------------------------------------------- the invariant

  predicate InFlight(s: State, id: BufId) {
    s.tx.buf.Some? && s.tx.buf.value.id == id
  }

  /** A queue only behind a transfer; the transfer covers the rest of its buffer from where the last abort left it. */
  ghost predicate Transfer(s: State) {
    match s.tx.buf
    case None =>
      !s.tx.enabled && s.tx.sizeLeft == 0 && s.abortedBuf.None? && s.abortedLen == 0 && s.txFifo == []
    case Some(p) =>
      && s.tx.enabled && p.at <= s.tx.curr && p.at < LenOf(s, p.id) && s.tx.curr + s.tx.sizeLeft == LenOf(s, p.id)
      && s.abortedLen == p.at && (if s.abortedBuf.None? then p.at == 0 else s.abortedBuf.value == Ptr(p.id, 0))
  }

  /** Every allocated buffer is in flight or queued, exactly one of the two and once, and nothing else is allocated. */
  ghost predicate Ownership(s: State) {
    && NoDuplicates(s.txFifo)
    && (forall id :: id in s.pool <==> InFlight(s, id) || id in s.txFifo)
    && (s.tx.buf.Some? ==> s.tx.buf.value.id !in s.txFifo)
    && !s.badFree
  }

  ghost predicate Lengths(s: State) {
    forall id :: id in s.pool ==> 0 < s.pool[id].len <= |s.pool[id].data|
  }

  /** What is still to be pushed of the buffer in flight. */
  function Remaining(s: State): seq<Byte> {
    if s.tx.buf.None? then [] else Slice(s.pool, s.tx.buf.value.id, s.tx.curr, LenOf(s, s.tx.buf.value.id))
  }

  ghost predicate Stream(s: State) {
    s.accepted == s.output + Remaining(s) + Flatten(s.txFifo, s.pool)
  }

  ghost predicate Inv(s: State) {
    Transfer(s) && Ownership(s) && Lengths(s) && Stream(s)
  }

  /** An abort that comes when every byte has been pushed, but before the UART has reported completion. */
  predicate LateAbort(s: State, e: Event) {
    e.Abort? && s.tx.buf.Some? && s.tx.sizeLeft == 0
  }

  // ---------------------------------------------------------------- every handler keeps it

  lemma ReadyKeeps(s: State, room: nat)
    requires Inv(s)
    ensures Inv(TxReady(s, room))
  {
    var s' := TxReady(s, room);
    var n := Min(room, s.tx.sizeLeft);
    if n > 0 && s.tx.buf.Some? {
      var id := s.tx.buf.value.id;
      assert id in s.pool;
      assert Remaining(s) == Slice(s.pool, id, s.tx.curr, s.tx.curr + n) + Remaining(s');
      forall i ensures i in s'.pool <==> InFlight(s', i) || i in s'.txFifo {
        assert InFlight(s, i) <==> InFlight(s', i);
      }
    }
  }

  /** An abort in time resumes at the first byte that was not pushed. */
  lemma AbortResumes(s: State)
    requires Inv(s) && s.tx.buf.Some? && s.tx.sizeLeft > 0
    ensures var p := s.tx.buf.value;
            TxAbort(s) == s.(abortedBuf := Some(Ptr(p.id, 0)), abortedLen := s.tx.curr,
                             tx := TxPart(Some(Ptr(p.id, s.tx.curr)), s.tx.curr, s.tx.sizeLeft, true))
  {}

  lemma AbortKeeps(s: State)
    requires Inv(s) && !LateAbort(s, Abort)
    ensures Inv(TxAbort(s))
  {
    var s' := TxAbort(s);
    if s.tx.buf.Some? {
      AbortResumes(s);
      assert Remaining(s') == Remaining(s);
    }
    forall i ensures i in s'.pool <==> InFlight(s', i) || i in s'.txFifo { assert InFlight(s, i) <==> InFlight(s', i); }
  }

  /** Completion frees the finished buffer, whatever aborts it went through, and starts the first queued one. */
  lemma CompleteIs(s: State)
    requires Inv(s) && s.tx.buf.Some? && s.tx.sizeLeft == 0
    ensures TxComplete(s) ==
            SendNext(s.(tx := IDLE, abortedBuf := None, abortedLen := 0, pool := s.pool - {s.tx.buf.value.id}))
  {
    assert InFlight(s, s.tx.buf.value.id);
  }

  /** Taking the first queued buffer out of the queue and into flight. */
  lemma FirstOwns(s: State, s': State)
    requires Ownership(s) && s.tx.buf.None? && |s.txFifo| > 0
    requires s'.tx.buf == Some(Ptr(s.txFifo[0], 0)) && s'.txFifo == s.txFifo[1..] && s'.pool == s.pool && !s'.badFree
    ensures Ownership(s') && s.txFifo[0] in s.pool
  {
    forall i ensures i in s'.pool <==> InFlight(s', i) || i in s'.txFifo {
      assert i in s.txFifo <==> i == s.txFifo[0] || i in s.txFifo[1..];
      assert i in s.pool <==> InFlight(s, i) || i in s.txFifo;
    }
  }

  /** The invariant when the finished buffer has just been freed, the queue not yet looked at. */
  lemma SendNextKeeps(s: State)
    requires s.tx == IDLE && s.abortedBuf.None? && s.abortedLen == 0
    requires Ownership(s) && Lengths(s) && Stream(s)
    ensures Inv(SendNext(s))
  {
    hide Flatten, NoDuplicates;
    if |s.txFifo| > 0 {
      var s' := SendNext(s);
      var id := s.txFifo[0];
      assert id in s.pool;
      FirstOwns(s, s');
      assert Stream(s') by {
        FlattenFirst(s.txFifo, s.pool);
        assert Remaining(s) == [];
        assert Remaining(s') == Meant(id, s.pool);
      }
    }
  }

  lemma FreedOwns(s: State, freed: State)
    requires Inv(s) && s.tx.buf.Some? && s.tx.sizeLeft == 0
    requires freed == s.(tx := IDLE, abortedBuf := None, abortedLen := 0, pool := s.pool - {s.tx.buf.value.id})
    ensures Ownership(freed) && Lengths(freed) && Flatten(freed.txFifo, freed.pool) == Flatten(s.txFifo, s.pool)
  {
    var id := s.tx.buf.value.id;
    forall i | i in s.txFifo ensures i in s.pool && i != id {}
    FlattenFrame(s.txFifo, s.pool, freed.pool);
    forall i ensures i in freed.pool <==> InFlight(freed, i) || i in freed.txFifo {
      assert InFlight(s, i) <==> i == id;
    }
  }

  lemma CompleteKeeps(s: State)
    requires Inv(s)
    ensures Inv(TxComplete(s))
  {
    if s.tx.sizeLeft == 0 && s.tx.buf.Some? {
      var freed := s.(tx := IDLE, abortedBuf := None, abortedLen := 0, pool := s.pool - {s.tx.buf.value.id});
      CompleteIs(s);
      FreedOwns(s, freed);
      hide Ownership, Flatten;
      assert Remaining(s) == [] == Remaining(freed);
      SendNextKeeps(freed);
    }
  }

  lemma FilledStream(cap: nat, s: State, id: BufId, bytes: seq<Byte>)
    requires Inv(s) && id !in s.pool && 0 < |bytes| <= cap
    ensures var f := Filled(cap, s, id, bytes);
            && Flatten(f.txFifo, f.pool) == Flatten(s.txFifo, s.pool) && Meant(id, f.pool) == bytes
            && Slice(f.pool, id, 0, |bytes|) == bytes && Remaining(f) == Remaining(s)
            && !InFlight(s, id) && id !in s.txFifo
  {
    var f := Filled(cap, s, id, bytes);
    FlattenFrame(s.txFifo, s.pool, f.pool);
    assert s.tx.buf.Some? ==> InFlight(s, s.tx.buf.value.id);
  }

  lemma QueueOwns(s: State, s': State, id: BufId)
    requires Ownership(s) && id !in s.pool
    requires s'.tx == s.tx && s'.txFifo == s.txFifo + [id] && s'.pool.Keys == s.pool.Keys + {id} && !s'.badFree
    ensures Ownership(s')
  {
    assert s.tx.buf.Some? ==> InFlight(s, s.tx.buf.value.id);
    forall i ensures i in s'.pool <==> InFlight(s', i) || i in s'.txFifo {
      assert i in s'.pool.Keys <==> i in s.pool.Keys || i == id;
      assert i in s.pool <==> InFlight(s, i) || i in s.txFifo;
    }
  }

  lemma SubmitQueues(cap: nat, s: State, id: BufId, bytes: seq<Byte>)
    requires Inv(s) && id !in s.pool && 0 < |bytes| <= cap && s.tx.buf.Some?
    ensures Inv(Submit(cap, s, id, bytes))
  {
    var s' := Filled(cap, s, id, bytes).(txFifo := s.txFifo + [id]);
    SubmitWhenBusy(cap, s, id, bytes);
    SubmitQueuesStream(cap, s, s', id, bytes);
    QueueTransfers(cap, s, s', id, bytes);
    assert !s.badFree && Ownership(s);
    hide Inv, Submit, Stream, Transfer, Lengths, Ownership;
    QueueOwns(s, s', id);
    JoinInv(s');
  }

  lemma SubmitWhenBusy(cap: nat, s: State, id: BufId, bytes: seq<Byte>)
    requires 0 < |bytes| <= cap && s.tx.buf.Some?
    ensures Submit(cap, s, id, bytes) == Filled(cap, s, id, bytes).(txFifo := s.txFifo + [id])
  {}

  lemma JoinInv(s: State)
    requires Transfer(s) && Ownership(s) && Lengths(s) && Stream(s)
    ensures Inv(s)
  {}

  lemma QueueTransfers(cap: nat, s: State, s': State, id: BufId, bytes: seq<Byte>)
    requires Transfer(s) && Lengths(s) && id !in s.pool && 0 < |bytes| <= cap && s.tx.buf.Some?
    requires s' == Filled(cap, s, id, bytes).(txFifo := s.txFifo + [id])
    ensures Transfer(s') && Lengths(s')
  {}

  lemma SubmitQueuesStream(cap: nat, s: State, s': State, id: BufId, bytes: seq<Byte>)
    requires Inv(s) && id !in s.pool && 0 < |bytes| <= cap
    requires s' == Filled(cap, s, id, bytes).(txFifo := s.txFifo + [id])
    ensures Stream(s')
  {
    FilledStream(cap, s, id, bytes);
    hide Flatten, Meant, Ownership, Transfer, Lengths;
    var f := Filled(cap, s, id, bytes);
    FlattenAppend(s.txFifo, id, f.pool);
    hide Submit, Filled;
    SameRemaining(f, s');
    Regroup(s.output, Remaining(s), Flatten(s.txFifo, s.pool), bytes);
  }

  lemma SameRemaining(s: State, s': State)
    requires s'.tx == s.tx && s'.pool == s.pool
    ensures Remaining(s') == Remaining(s)
  {}

  lemma Regroup(a: seq<Byte>, b: seq<Byte>, c: seq<Byte>, d: seq<Byte>)
    ensures (a + b + c) + d == a + b + (c + d)
  {}

  lemma SubmitSends(cap: nat, s: State, id: BufId, bytes: seq<Byte>)
    requires Inv(s) && id !in s.pool && 0 < |bytes| <= cap && s.tx.buf.None?
    ensures Inv(Submit(cap, s, id, bytes))
  {
    FilledStream(cap, s, id, bytes);
    hide Flatten;
    var f := Filled(cap, s, id, bytes);
    var s' := Submit(cap, s, id, bytes);
    assert s' == f.(tx := TxPart(Some(Ptr(id, 0)), 0, |bytes|, true));
    assert Stream(s') by { assert Remaining(s') == bytes && Flatten(s.txFifo, s.pool) == [] by { EmptyQueue(s); } }
    forall i ensures i in s'.pool <==> InFlight(s', i) || i in s'.txFifo {
      assert i in s.pool <==> InFlight(s, i) || i in s.txFifo;
    }
  }

  lemma EmptyQueue(s: State)
    requires s.txFifo == []
    ensures Flatten(s.txFifo, s.pool) == []
  {}

  lemma HandleKeeps(cap: nat, s: State, e: Event)
    requires cap >= 2 && Inv(s) && !LateAbort(s, e)
    ensures Inv(Handle(cap, s, e))
  {
    hide Inv;
    match e
    case OneChunk(data, pos, answer) =>
      if pos < |data| && answer.Some? && answer.value !in s.pool {
        var bytes := Chunk(cap, data, pos);
        if s.tx.buf.Some? {
          SubmitQueues(cap, s, answer.value, bytes);
        } else {
          SubmitSends(cap, s, answer.value, bytes);
        }
      }
    case Ready(room) => ReadyKeeps(s, room);
    case Complete => CompleteKeeps(s);
    case Abort => AbortKeeps(s);
  }

  // ---------------------------------------------------------------- every run

  /** No abort of the run comes late. */
  predicate OnTime(cap: nat, s: State, events: seq<Event>)
    requires cap > 0
    decreases |events|
  {
    |events| > 0 ==>
      var n := |events| - 1;
      OnTime(cap, s, events[..n]) && !LateAbort(Run(cap, s, events[..n]), events[n])
  }

  lemma {:induction false} RunKeeps(cap: nat, s: State, events: seq<Event>)
    requires cap >= 2 && Inv(s) && OnTime(cap, s, events)
    ensures Inv(Run(cap, s, events))
    decreases |events|
  {
    hide Inv, Handle, LateAbort;
    var n := |events| - 1;
    if n >= 0 {
      RunKeeps(cap, s, events[..n]);
      HandleKeeps(cap, Run(cap, s, events[..n]), events[n]);
    }
  }

  /**
   The end-to-end theorem, for every interleaving of received chunks, interrupts and aborts none of which is late: what
   was accepted from the radio is, in order and each byte once, what was pushed into the UART, then the rest of the
   buffer in flight, then the queue, which is never non-empty without a transfer.
   */
  lemma TxEndToEnd(cap: nat, events: seq<Event>)
    requires cap >= 2 && OnTime(cap, START, events)
    ensures var s := Run(cap, START, events);
            && s.accepted == s.output + Remaining(s) + Flatten(s.txFifo, s.pool)
            && (s.txFifo != [] ==> s.tx.buf.Some?) && (s.tx.enabled <==> s.tx.buf.Some?)
            && (s.tx.buf.None? ==> s.output == s.accepted)
  {
    assert Inv(START);
    RunKeeps(cap, START, events);
    var s := Run(cap, START, events);
    if s.tx.buf.None? { EmptyQueue(s); }
  }

  /** In such a run every allocated buffer is in flight or queued, not both, and every free is of an allocated block. */
  lemma BuffersHaveOneOwner(cap: nat, events: seq<Event>)
    requires cap >= 2 && OnTime(cap, START, events)
    ensures var s := Run(cap, START, events);
            && !s.badFree && NoDuplicates(s.txFifo)
            && (forall id :: id in s.pool <==> InFlight(s, id) || id in s.txFifo)
            && (forall id :: !(InFlight(s, id) && id in s.txFifo))
  {
    assert Inv(START);
    RunKeeps(cap, START, events);
  }

  // ---------------------------------------------------------------- progress

  /** What is left to do: bytes to push, buffers to start, and the completion of the one in flight. */
  function Work(s: State): nat {
    |Remaining(s)| + |Flatten(s.txFifo, s.pool)| + |s.txFifo| + if s.tx.buf.Some? then 1 else 0
  }

  /** The UART takes at least one byte of the transfer, or reports that it is over. */
  predicate Productive(s: State, e: Event) {
    s.tx.buf.Some? && match e
                      case Ready(room) => room > 0 && s.tx.sizeLeft > 0
                      case Complete => s.tx.sizeLeft == 0
                      case _ => false
  }

  /** While a transfer is under way, a UART with any room at all is productive. */
  lemma TransferIsProductive(s: State, room: nat)
    requires s.tx.buf.Some? && room > 0
    ensures Productive(s, Ready(room)) || Productive(s, Complete)
  {}

  lemma ReadyWorks(s: State, room: nat)
    requires Inv(s)
    ensures TxReady(s, room).accepted == s.accepted
    ensures Work(TxReady(s, room)) <= Work(s) - if Productive(s, Ready(room)) then 1 else 0
  {
    var s' := TxReady(s, room);
    if s' != s {
      var id := s.tx.buf.value.id;
      assert id in s.pool;
      assert |Remaining(s)| == s.tx.sizeLeft && |Remaining(s')| == s'.tx.sizeLeft;
    }
  }

  lemma AbortWorks(s: State)
    requires Inv(s) && !LateAbort(s, Abort)
    ensures TxAbort(s).accepted == s.accepted && Work(TxAbort(s)) == Work(s)
  {
    if s.tx.buf.Some? {
      AbortResumes(s);
      assert Remaining(TxAbort(s)) == Remaining(s);
    }
  }

  /** Starting the first queued buffer. */
  lemma SendNextWorks(s: State)
    requires s.tx == IDLE && Ownership(s) && Lengths(s)
    ensures SendNext(s).accepted == s.accepted
    ensures Work(SendNext(s)) == Work(s)
  {
    if |s.txFifo| > 0 {
      var id := s.txFifo[0];
      assert id in s.pool;
      FlattenFirst(s.txFifo, s.pool);
      assert Remaining(SendNext(s)) == Meant(id, s.pool);
    }
  }

  lemma CompleteWorks(s: State)
    requires Inv(s)
    ensures TxComplete(s).accepted == s.accepted
    ensures Work(TxComplete(s)) <= Work(s) - if Productive(s, Complete) then 1 else 0
  {
    if s.tx.sizeLeft == 0 && s.tx.buf.Some? {
      var id := s.tx.buf.value.id;
      var freed := s.(tx := IDLE, abortedBuf := None, abortedLen := 0, pool := s.pool - {id});
      CompleteIs(s);
      FreedOwns(s, freed);
      hide Ownership;
      SendNextWorks(freed);
    }
  }

  /** No event but a new chunk makes work, and a productive one does some of it. */
  lemma EventWorks(cap: nat, s: State, e: Event)
    requires cap >= 2 && Inv(s) && !LateAbort(s, e) && !e.OneChunk?
    ensures Handle(cap, s, e).accepted == s.accepted
    ensures Work(Handle(cap, s, e)) <= Work(s) - if Productive(s, e) then 1 else 0
  {
    assert s.tx.buf.Some? ==> s.tx.enabled;
    hide Inv, Work;
    match e
    case Ready(room) => ReadyWorks(s, room);
    case Complete => CompleteWorks(s);
    case Abort => AbortWorks(s);
  }

  function ProductiveEvents(cap: nat, s: State, events: seq<Event>): nat
    requires cap > 0
    decreases |events|
  {
    if |events| == 0 then 0
    else
      var n := |events| - 1;
      ProductiveEvents(cap, s, events[..n]) + if Productive(Run(cap, s, events[..n]), events[n]) then 1 else 0
  }

  lemma {:induction false} RunWorks(cap: nat, s: State, events: seq<Event>)
    requires cap >= 2 && Inv(s) && OnTime(cap, s, events) && forall e :: e in events ==> !e.OneChunk?
    ensures Run(cap, s, events).accepted == s.accepted
    ensures Work(Run(cap, s, events)) + ProductiveEvents(cap, s, events) <= Work(s)
    decreases |events|
  {
    hide Inv, Handle, LateAbort, Work, Productive;
    var n := |events| - 1;
    if n >= 0 {
      RunWorks(cap, s, events[..n]);
      RunKeeps(cap, s, events[..n]);
      EventWorks(cap, Run(cap, s, events[..n]), events[n]);
    }
  }

  /** There are never more productive events than there was work, and when there are as many, all of it is done. */
  lemma WorkIsBound(cap: nat, s: State, events: seq<Event>)
    requires cap >= 2 && Inv(s) && OnTime(cap, s, events) && forall e :: e in events ==> !e.OneChunk?
    ensures ProductiveEvents(cap, s, events) <= Work(s)
    ensures ProductiveEvents(cap, s, events) == Work(s) ==> Delivered(s, Run(cap, s, events))
  {
    RunWorks(cap, s, events);
    RunKeeps(cap, s, events);
    hide Run, Inv;
    NoWorkIsDelivered(s, Run(cap, s, events));
  }

  /** Everything accepted is out, the queue is empty, nothing is in flight and every block is freed. */
  ghost predicate Delivered(s: State, d: State) {
    d.output == s.accepted && d.txFifo == [] && d.tx.buf.None? && d.pool == map[]
  }

  lemma NoWorkIsDelivered(s: State, d: State)
    requires Inv(d) && d.accepted == s.accepted
    ensures Work(d) == 0 || d.tx.buf.None? ==> Delivered(s, d)
  {
    if d.tx.buf.None? { IdleIsEmpty(d); }
  }

  // ---------------------------------------------------------------- fair schedules

  /** The UART makes room for at least one byte, and reports that it has nothing left to send, at least once each. */
  ghost predicate Served(w: seq<Event>) {
    && (exists i :: 0 <= i < |w| && w[i].Ready? && w[i].room > 0)
    && (exists i :: 0 <= i < |w| && w[i].Complete?)
  }

  /** In every `k` events in a row the UART does both. */
  ghost predicate Fair(events: seq<Event>, k: nat) {
    k > 0 && forall i :: 0 <= i <= |events| - k ==> ServedFrom(events, i, k)
  }

  ghost predicate ServedFrom(events: seq<Event>, i: nat, k: nat)
    requires i + k <= |events|
  {
    Served(events[i..i + k])
  }

  /** An event that is not productive leaves the transfer with as much to push. */
  lemma UnproductiveWaits(cap: nat, s: State, e: Event)
    requires cap >= 2 && Inv(s) && s.tx.buf.Some? && !LateAbort(s, e) && !e.OneChunk? && !Productive(s, e)
    ensures Handle(cap, s, e).tx.buf.Some? && Handle(cap, s, e).tx.sizeLeft == s.tx.sizeLeft
  {
    if e.Abort? { AbortResumes(s); }
  }

  lemma {:induction false} NothingProductive(cap: nat, s: State, w: seq<Event>, i: nat)
    requires cap >= 2 && ProductiveEvents(cap, s, w) == 0 && i < |w|
    ensures !Productive(Run(cap, s, w[..i]), w[i])
    decreases |w|
  {
    hide Run, Productive;
    var n := |w| - 1;
    if i < n {
      NothingProductive(cap, s, w[..n], i);
      assert w[..n][..i] == w[..i];
    }
  }

  lemma {:induction false} OnTimePrefix(cap: nat, s: State, events: seq<Event>, i: nat)
    requires cap > 0 && OnTime(cap, s, events) && i <= |events|
    ensures OnTime(cap, s, events[..i])
    ensures i < |events| ==> !LateAbort(Run(cap, s, events[..i]), events[i])
    decreases |events|
  {
    hide Run, LateAbort;
    var n := |events| - 1;
    if i < n {
      OnTimePrefix(cap, s, events[..n], i);
      assert events[..n][..i] == events[..i];
    } else if i > n {
      assert events[..i] == events;
    }
  }

  /** As long as nothing productive happens the transfer waits. */
  lemma {:induction false} TransferWaits(cap: nat, s: State, w: seq<Event>, i: nat)
    requires cap >= 2 && Inv(s) && OnTime(cap, s, w) && (forall e :: e in w ==> !e.OneChunk?)
    requires s.tx.buf.Some? && ProductiveEvents(cap, s, w) == 0 && i <= |w|
    ensures var t := Run(cap, s, w[..i]); t.tx.buf.Some? && t.tx.sizeLeft == s.tx.sizeLeft
    decreases i
  {
    hide Handle, Inv, LateAbort, Productive;
    if i > 0 {
      TransferWaits(cap, s, w, i - 1);
      NothingProductive(cap, s, w, i - 1);
      OnTimePrefix(cap, s, w, i - 1);
      RunKeeps(cap, s, w[..i - 1]);
      assert w[..i][..i - 1] == w[..i - 1];
      UnproductiveWaits(cap, Run(cap, s, w[..i - 1]), w[i - 1]);
    }
  }

  /** So a stretch in which the UART does both does some of the work. */
  lemma ServedWindowWorks(cap: nat, s: State, w: seq<Event>)
    requires cap >= 2 && Inv(s) && OnTime(cap, s, w) && (forall e :: e in w ==> !e.OneChunk?)
    requires s.tx.buf.Some? && Served(w)
    ensures Work(Run(cap, s, w)) < Work(s)
  {
    hide Run, Inv, Work, OnTime;
    RunWorks(cap, s, w);
    if ProductiveEvents(cap, s, w) == 0 {
      var i :| 0 <= i < |w| && w[i].Ready? && w[i].room > 0;
      var j :| 0 <= j < |w| && w[j].Complete?;
      TransferWaits(cap, s, w, i);
      TransferWaits(cap, s, w, j);
      NothingProductive(cap, s, w, i);
      NothingProductive(cap, s, w, j);
      assert false;
    }
  }

  lemma {:induction false} RunInTwo(cap: nat, s: State, events: seq<Event>, k: nat)
    requires cap > 0 && k <= |events|
    ensures Run(cap, s, events) == Run(cap, Run(cap, s, events[..k]), events[k..])
    ensures OnTime(cap, s, events) ==> OnTime(cap, Run(cap, s, events[..k]), events[k..])
    decreases |events|
  {
    hide Handle, LateAbort;
    var n := |events| - 1;
    if k == |events| {
      assert events[..k] == events;
    } else {
      RunInTwo(cap, s, events[..n], k);
      assert events[..n][..k] == events[..k] && events[..n][k..] == events[k..][..n - k];
    }
  }

  lemma FairSuffix(events: seq<Event>, k: nat)
    requires Fair(events, k) && k <= |events|
    ensures Served(events[..k]) && Fair(events[k..], k)
  {
    assert ServedFrom(events, 0, k) && events[0..0 + k] == events[..k];
    forall i | 0 <= i <= |events[k..]| - k ensures ServedFrom(events[k..], i, k) {
      assert ServedFrom(events, k + i, k);
      assert events[k..][i..i + k] == events[k + i..k + i + k];
    }
  }

  lemma WindowsLeft(k: nat, work: nat, rest: nat)
    requires rest < work
    ensures k * rest + k <= k * work
  {
    var d := work - rest - 1;
    assert k * work == k * rest + k + k * d;
  }

  /**
   Nothing is stuck: on every schedule in which the UART makes room and reports completion at least once each in every
   `k` events, with fills of any size and any aborts that are not late in between, all that was accepted is out, the
   queue is empty and every block is freed after `k` events for each unit of work.
   */
  lemma {:induction false} DrainSendsAll(cap: nat, s: State, events: seq<Event>, k: nat)
    requires cap >= 2 && Inv(s) && OnTime(cap, s, events) && Fair(events, k) && |events| >= k * Work(s)
    requires forall e :: e in events ==> !e.OneChunk?
    ensures Delivered(s, Run(cap, s, events))
    decreases |events|
  {
    if s.tx.buf.None? {
      StaysDelivered(cap, s, events);
    } else {
      AtLeastOneWindow(s, events, k);
      FairIsPositive(events, k);
      hide Inv, OnTime, Fair, Work, Run, Served, Delivered;
      var first, rest := events[..k], events[k..];
      var t := Run(cap, s, first);
      FairSuffix(events, k);
      OnTimePrefix(cap, s, events, k);
      ServedWindowWorks(cap, s, first);
      RunWorks(cap, s, first);
      RunKeeps(cap, s, first);
      RunInTwo(cap, s, events, k);
      WindowsLeft(k, Work(s), Work(t));
      DrainSendsAll(cap, t, rest, k);
      SameAccepted(s, t, Run(cap, t, rest));
    }
  }

  lemma SameAccepted(s: State, t: State, d: State)
    requires Delivered(t, d) && t.accepted == s.accepted
    ensures Delivered(s, d)
  {}

  lemma FairIsPositive(events: seq<Event>, k: nat)
    requires Fair(events, k)
    ensures k > 0
  {}

  lemma AtLeastOneWindow(s: State, events: seq<Event>, k: nat)
    requires |events| >= k * Work(s)
    ensures s.tx.buf.None? || |events| >= k
  {
    if s.tx.buf.Some? { WindowsLeft(k, Work(s), 0); }
  }

  /** What is delivered stays so. */
  lemma StaysDelivered(cap: nat, s: State, events: seq<Event>)
    requires cap >= 2 && Inv(s) && OnTime(cap, s, events) && s.tx.buf.None?
    requires forall e :: e in events ==> !e.OneChunk?
    ensures Delivered(s, Run(cap, s, events))
  {
    IdleHasNoWork(s);
    hide Inv, OnTime, Work;
    RunWorks(cap, s, events);
    RunKeeps(cap, s, events);
    NoWorkIsDelivered(s, Run(cap, s, events));
  }

  lemma IdleHasNoWork(s: State)
    requires Inv(s) && s.tx.buf.None?
    ensures Work(s) == 0
  {
    EmptyQueue(s);
  }

  lemma IdleIsEmpty(s: State)
    requires Inv(s) && s.tx.buf.None?
    ensures s.output == s.accepted && s.txFifo == [] && s.pool == map[]
  {
    EmptyQueue(s);
    assert forall i :: !InFlight(s, i);
    assert s.pool.Keys == {};
  }

  // ---------------------------------------------------------------- aborts

  /** The exact condition: an abort during a transfer is survived if and only if some byte was not pushed yet. */
  lemma AbortVerdict(s: State)
    requires Inv(s) && s.tx.buf.Some?
    ensures Inv(TxAbort(s)) <==> s.tx.sizeLeft > 0
    ensures TxAbort(s).tx.buf.Some? <==> s.tx.sizeLeft > 0
  {
    if s.tx.sizeLeft > 0 { AbortKeeps(s); }
  }

  /** What a late abort leaves: nothing in flight, the queue as it was, and a finished block that nobody owns. */
  lemma LateAbortIs(s: State)
    requires Inv(s) && LateAbort(s, Abort)
    ensures var id := s.tx.buf.value.id;
            && TxAbort(s) == s.(tx := IDLE, abortedBuf := Some(Ptr(id, 0)), abortedLen := LenOf(s, id))
            && id in s.pool && id !in s.txFifo
            && s.accepted == s.output + Flatten(s.txFifo, s.pool)
  {}

  /**
   What follows a late abort: the next message overtakes all that is queued, and its completion frees the block that the
   abort left over, so that its own block stays allocated with no owner.
   */
  lemma LateAbortReorders(cap: nat, s: State, data: seq<Byte>, id: BufId)
    requires cap >= 2 && Inv(s) && LateAbort(s, Abort) && id !in s.pool
    requires 0 < |data| < cap && data[|data| - 1] != CR
    ensures var s1 := TxAbort(s);
            var s2 := Pass(cap, s1, data, 0, Some(id)).0;
            var s3 := TxReady(s2, |data|);
            var s4 := TxComplete(s3);
            && s3.output == s.output + data
            && s3.accepted == s.output + Flatten(s.txFifo, s.pool) + data
            && id in s4.pool && !InFlight(s4, id) && id !in s4.txFifo
  {
    LateAbortIs(s);
    hide Inv, Flatten;
    var s1 := TxAbort(s);
    var s2 := Pass(cap, s1, data, 0, Some(id)).0;
    assert Chunk(cap, data, 0) == data;
    assert s2 == Filled(cap, s1, id, data).(tx := TxPart(Some(Ptr(id, 0)), 0, |data|, true));
    var s3 := TxReady(s2, |data|);
    assert Slice(s2.pool, id, 0, |data|) == data;
    assert s3 == s2.(tx := TxPart(Some(Ptr(id, 0)), |data|, 0, true), output := s.output + data);
    NotQueued(s, id);
    var done := s.tx.buf.value.id;
    assert TxComplete(s3) ==
           SendNext(s3.(tx := IDLE, abortedBuf := None, abortedLen := 0, pool := s3.pool - {done}));
  }

  lemma RunOneMore(cap: nat, s: State, events: seq<Event>, e: Event)
    requires cap > 0
    ensures Run(cap, s, events + [e]) == Handle(cap, Run(cap, s, events), e)
  {
    assert (events + [e])[..|events|] == events;
  }

  lemma RunThreeMore(cap: nat, s: State, events: seq<Event>, d: Event, e: Event, f: Event)
    requires cap > 0
    ensures Run(cap, s, events + [d] + [e] + [f]) == Handle(cap, Handle(cap, Handle(cap, Run(cap, s, events), d), e), f)
  {
    hide Run, Handle;
    RunOneMore(cap, s, events, d);
    RunOneMore(cap, s, events + [d], e);
    RunOneMore(cap, s, events + [d] + [e], f);
  }

  /** One message is sent and pushed, a second one queued behind it. */
  function Prelude(x: Byte, y: Byte): seq<Event> {
    [] + [OneChunk([x], 0, Some(0))] + [Ready(1)] + [OneChunk([y], 0, Some(1))]
  }

  lemma FirstPushed(cap: nat, x: Byte)
    requires cap >= 2 && x != CR
    ensures var s := Handle(cap, Handle(cap, START, OneChunk([x], 0, Some(0))), Ready(1));
            && Inv(s) && s.tx == TxPart(Some(Ptr(0, 0)), 1, 0, true) && s.output == [x] && s.accepted == [x]
            && s.txFifo == [] && s.pool.Keys == {0}
  {
    assert Inv(START) by { EmptyQueue(START); }
    HandleKeeps(cap, START, OneChunk([x], 0, Some(0)));
    FirstSent(cap, START, x, 0);
    hide Inv;
    HandleKeeps(cap, Handle(cap, START, OneChunk([x], 0, Some(0))), Ready(1));
  }

  lemma SecondWaits(cap: nat, s: State, x: Byte, y: Byte)
    requires cap >= 2 && y != CR && Inv(s) && s.tx == TxPart(Some(Ptr(0, 0)), 1, 0, true)
    requires s.output == [x] && s.accepted == [x] && s.txFifo == [] && s.pool.Keys == {0}
    ensures var t := Handle(cap, s, OneChunk([y], 0, Some(1)));
            && Inv(t) && LateAbort(t, Abort) && t.output == [x] && 2 !in t.pool
            && t.accepted == [x, y] == t.output + Flatten(t.txFifo, t.pool)
  {
    hide Inv, Handle;
    assert 1 !in s.pool.Keys;
    HandleKeeps(cap, s, OneChunk([y], 0, Some(1)));
    SecondQueued(cap, s, y, 1);
    StreamOf(Handle(cap, s, OneChunk([y], 0, Some(1))));
    assert 2 !in Filled(cap, s, 1, [y]).pool.Keys;
  }

  lemma PreludeIs(cap: nat, x: Byte, y: Byte)
    requires cap >= 2 && x != CR && y != CR
    ensures var s := Run(cap, START, Prelude(x, y));
            && Inv(s) && LateAbort(s, Abort) && s.output == [x] && 2 !in s.pool
            && s.accepted == [x, y] == s.output + Flatten(s.txFifo, s.pool)
  {
    RunThreeMore(cap, START, [], OneChunk([x], 0, Some(0)), Ready(1), OneChunk([y], 0, Some(1)));
    assert Run(cap, START, []) == START;
    hide Inv, Handle, Run, Flatten, LateAbort;
    FirstPushed(cap, x);
    SecondWaits(cap, Handle(cap, Handle(cap, START, OneChunk([x], 0, Some(0))), Ready(1)), x, y);
  }

  lemma FirstSent(cap: nat, s: State, x: Byte, id: BufId)
    requires cap >= 2 && x != CR && s.tx == IDLE && id !in s.pool
    ensures Handle(cap, s, OneChunk([x], 0, Some(id))) ==
            Filled(cap, s, id, [x]).(tx := TxPart(Some(Ptr(id, 0)), 0, 1, true))
  {
    assert Chunk(cap, [x], 0) == [x];
  }

  lemma SecondQueued(cap: nat, s: State, y: Byte, id: BufId)
    requires cap >= 2 && y != CR && s.tx.buf.Some? && id !in s.pool
    ensures Handle(cap, s, OneChunk([y], 0, Some(id))) == Filled(cap, s, id, [y]).(txFifo := s.txFifo + [id])
  {
    assert Chunk(cap, [y], 0) == [y];
  }

  lemma StreamOf(s: State)
    requires Inv(s) && s.tx.buf.Some? && s.tx.sizeLeft == 0
    ensures s.accepted == s.output + Flatten(s.txFifo, s.pool)
  {
    assert Remaining(s) == [];
  }

  lemma ThirdOvertakes(cap: nat, s: State, z: Byte, id: BufId)
    requires cap >= 2 && z != CR && Inv(s) && LateAbort(s, Abort) && id !in s.pool
    ensures var t := Handle(cap, Handle(cap, Handle(cap, s, Abort), OneChunk([z], 0, Some(id))), Ready(1));
            t.output == s.output + [z] && t.accepted == s.output + Flatten(s.txFifo, s.pool) + [z]
  {
    LateAbortReorders(cap, s, [z], id);
    LateAbortIs(s);
    hide Inv, Flatten;
    FirstSent(cap, TxAbort(s), z, id);
  }

  /** From the start: of three messages the second is overtaken by the third. */
  lemma LateAbortReached(cap: nat, x: Byte, y: Byte, z: Byte)
    requires cap >= 2 && x != CR && y != CR && z != CR
    ensures var s := Run(cap, START, Prelude(x, y) + [Abort] + [OneChunk([z], 0, Some(2))] + [Ready(1)]);
            s.output == [x] + [z] && s.accepted == [x, y] + [z]
  {
    hide Run, Flatten, Inv, Prelude, Handle, LateAbort;
    PreludeIs(cap, x, y);
    RunThreeMore(cap, START, Prelude(x, y), Abort, OneChunk([z], 0, Some(2)), Ready(1));
    ThirdOvertakes(cap, Run(cap, START, Prelude(x, y)), z, 2);
  }

  lemma NotQueued(s: State, id: BufId)
    requires Inv(s) && id !in s.pool
    ensures id !in s.txFifo && !InFlight(s, id)
  {}

  // ---------------------------------------------------------------- chunking

  /** A whole message as the UART is to see it: a line feed is added after a final carriage return. */
  function Expected(data: seq<Byte>): seq<Byte> {
    data + if NeedsLF(data, |data|) then [LF] else []
  }

  /** What `bt_receive_cb` has accepted of `data[pos..]` when it stops at `end`. */
  function AcceptedPart(data: seq<Byte>, pos: nat, end: nat): seq<Byte>
    requires pos <= end <= |data|
  {
    data[pos..end] + if end == |data| > pos && NeedsLF(data, end) then [LF] else []
  }

  lemma PassAccepts(cap: nat, s: State, data: seq<Byte>, pos: nat, answer: Option<BufId>)
    requires cap >= 2 && Inv(s) && pos < |data|
    ensures var (s', p) := Pass(cap, s, data, pos, answer);
            Inv(s') && match p
                       case None => s' == s && (answer.None? || answer.value in s.pool)
                       case Some(p') => pos < p' <= |data| && s'.accepted == s.accepted + AcceptedPart(data, pos, p')
  {
    hide Inv, Ownership, Flatten;
    HandleKeeps(cap, s, OneChunk(data, pos, answer));
    if answer.Some? && answer.value !in s.pool { SubmitAccepts(cap, s, answer.value, Chunk(cap, data, pos)); }
  }

  lemma SubmitAccepts(cap: nat, s: State, id: BufId, bytes: seq<Byte>)
    requires |bytes| <= cap
    ensures Submit(cap, s, id, bytes).accepted == s.accepted + bytes
  {}

  /**
   Receiving a message accepts it in order without gap or overlap: all of it, and the line feed if it ends with a
   carriage return, or up to the first failed allocation.
   */
  lemma {:induction false} ReceiveAccepts(cap: nat, s: State, data: seq<Byte>, pos: nat, answers: seq<Option<BufId>>)
    requires cap >= 2 && Inv(s) && pos <= |data|
    ensures var (s', end) := Receive(cap, s, data, pos, answers);
            && Inv(s') && pos <= end <= |data|
            && s'.accepted == s.accepted + AcceptedPart(data, pos, end)
            && (pos == 0 && end == |data| ==> s'.accepted == s.accepted + Expected(data))
    decreases |answers|
  {
    hide Inv, Pass;
    if pos < |data| && |answers| > 0 {
      PassAccepts(cap, s, data, pos, answers[0]);
      var (s', p) := Pass(cap, s, data, pos, answers[0]);
      if p.Some? {
        ReceiveAccepts(cap, s', data, p.value, answers[1..]);
        var end := Receive(cap, s', data, p.value, answers[1..]).1;
        Joined(data, pos, p.value, end);
      }
    }
  }

  /**
   A message that is received to its end goes out as it is, with a line feed behind it if it ends with a carriage
   return.
   */
  lemma WholeMessageAccepted(cap: nat, s: State, data: seq<Byte>, answers: seq<Option<BufId>>)
    requires cap >= 2 && Inv(s) && |data| > 0 && Receive(cap, s, data, 0, answers).1 == |data|
    ensures var s' := Receive(cap, s, data, 0, answers).0;
            s'.accepted == s.accepted + data + if data[|data| - 1] == 13 then [10] else []
  {
    ReceiveAccepts(cap, s, data, 0, answers);
  }

  lemma Joined(data: seq<Byte>, pos: nat, mid: nat, end: nat)
    requires pos < mid <= end <= |data|
    ensures AcceptedPart(data, pos, mid) + AcceptedPart(data, mid, end) == AcceptedPart(data, pos, end)
  {}

  /** Buffers of one byte have no room beside the line feed: the receive loop of a message gets nowhere. */
  lemma {:induction false} OneByteBuffersStall(s: State, data: seq<Byte>, answers: seq<Option<BufId>>)
    requires 0 < |data|
    ensures var (s', end) := Receive(1, s, data, 0, answers);
            && end == 0 && s'.accepted == s.accepted && s'.tx == s.tx && s'.txFifo == s.txFifo
            && s.pool.Keys <= s'.pool.Keys
    decreases |answers|
  {
    if |answers| > 0 && answers[0].Some? && answers[0].value !in s.pool {
      EmptyChunk(s, data, answers[0].value);
      OneByteBuffersStall(Filled(1, s, answers[0].value, []), data, answers[1..]);
    }
  }

  lemma EmptyChunk(s: State, data: seq<Byte>, id: BufId)
    requires 0 < |data| && id !in s.pool
    ensures Pass(1, s, data, 0, Some(id)) == (Filled(1, s, id, []), Some(0))
  {
    assert Chunk(1, data, 0) == [];
  }

  /** The first `n` allocations succeed. */
  predicate Granted(s: State, answers: seq<Option<BufId>>, n: nat)
    requires n <= |answers|
  {
    && (forall i :: 0 <= i < n ==> answers[i].Some? && answers[i].value !in s.pool)
    && (forall i, j :: 0 <= i < j < n ==> answers[i] != answers[j])
  }

  /** And it takes every block there is, none of which is queued, sent or freed. */
  lemma {:induction false} OneByteBuffersLeak(s: State, data: seq<Byte>, answers: seq<Option<BufId>>, n: nat)
    requires 0 < |data| && n <= |answers| && Granted(s, answers, n)
    ensures var s' := Receive(1, s, data, 0, answers).0;
            && s'.tx == s.tx && s'.txFifo == s.txFifo
            && forall i :: 0 <= i < n ==> answers[i].value in s'.pool
    decreases |answers|
  {
    OneByteBuffersStall(s, data, answers);
    if n > 0 {
      var id := answers[0].value;
      EmptyChunk(s, data, id);
      OneByteBuffersStall(Filled(1, s, id, []), data, answers[1..]);
      OneByteBuffersLeak(Filled(1, s, id, []), data, answers[1..], n - 1);
      forall i | 0 <= i < n ensures answers[i].value in Receive(1, s, data, 0, answers).0.pool {
        assert i > 0 ==> answers[i] == answers[1..][i - 1];
        assert id in Filled(1, s, id, []).pool.Keys;
      }
    }
  }
}
