/**
 Receiving over the UART: the adapter that turns interrupt-driven FIFO reads into buffer events, together with its one
 client, which allocates the buffers, queues them for the radio and frees them.  Every handler is one atomic step; the
 callbacks it makes are ordinary calls, which may call back into the adapter.

 This module defines the handlers as functions on the joint state; `UartRxCode` has the code, with the same effects.
 */
module UartRx {
  import opened Bytes
  import opened Buffers

  /** `UART_BUF_SIZE`, and whether the receive timeout is zero, so that bytes are notified at once. */
  datatype Config = Config(cap: nat, atOnce: bool)

  datatype State = State(
    // the adapter's receive state; positions are offsets into `buf`
    buf: Option<BufId>, curr: nat, lastNotify: nat, sizeLeft: nat,
    nextBuf: Option<BufId>, nextLen: nat, enabled: bool,
    // the client's static variables, its queue to the radio, and the retry it may have scheduled
    currentBuf: Option<BufId>, bufRelease: bool, rxFifo: seq<BufId>, retryPending: bool,
    // the allocated buffers, and the bytes waiting in the UART
    pool: map<BufId, Buffer>, hw: seq<Byte>,
    // history: what arrived, what was read into buffers, what was sent by radio, whether a byte was dropped,
    // whether an allocation failed, whether a block was freed that was not allocated
    arrived: seq<Byte>, kept: seq<Byte>, delivered: seq<Byte>, lost: bool, starved: bool, badFree: bool)

  // ---------------------------------------------------------------- memory

  /** `k_malloc` answers with some free block or with none, as `answer` says, and the client sets `len` to 0. */
  function Malloc(c: Config, s: State, answer: Option<BufId>): (State, Option<BufId>) {
    if answer.Some? && answer.value !in s.pool then
      (s.(pool := s.pool[answer.value := Buffer(seq(c.cap, _ => 0), 0)]), answer)
    else (s.(starved := true), None)
  }

  function Free(s: State, id: BufId): State {
    s.(pool := s.pool - {id}, badFree := s.badFree || id !in s.pool)
  }

  /** Freeing what is not allocated does not go unnoticed. */
  lemma WrongFreeIsNoted(s: State, id: BufId)
    ensures Free(s, id).badFree <==> s.badFree || id !in s.pool
    ensures forall i :: i in Free(s, id).pool <==> i in s.pool && i != id
  {}

  // ---------------------------------------------------------------- adapter and client, callback by callback

  function RxEnable(c: Config, s: State, id: BufId): State {
    s.(buf := None, curr := 0, sizeLeft := 0, nextBuf := Some(id), nextLen := c.cap, enabled := true)
  }

  /** The client's `UART_RX_BUF_RELEASED`. */
  function OnReleased(s: State, id: BufId): State {
    if s.bufRelease && s.currentBuf != Some(id) then Free(s, id).(bufRelease := false, currentBuf := None) else s
  }

  /** The locked part of `switch_rx_buffer`. */
  function Advance(s: State): State {
    s.(buf := s.nextBuf, curr := 0, lastNotify := 0, sizeLeft := s.nextLen, nextBuf := None, nextLen := 0)
  }

  function SwitchBuffer(s: State): State {
    if s.buf.Some? then OnReleased(Advance(s), s.buf.value) else Advance(s)
  }

  /** The loop of `rx_disable`. */
  function ReleaseAll(s: State): State
    decreases s.buf.Some?, s.nextBuf.Some?
  {
    if s.buf.None? then s else ReleaseAll(SwitchBuffer(s))
  }

  /** The client's `UART_RX_DISABLED`, and the handler of the retry it schedules. */
  function OnDisabled(c: Config, s: State, answer: Option<BufId>): State {
    var (s', id) := Malloc(c, s, answer);
    if id.None? then s'.(retryPending := true) else RxEnable(c, s', id.value)
  }

  function RxDisable(c: Config, s: State, answer: Option<BufId>): State {
    OnDisabled(c, ReleaseAll(s.(enabled := false)), answer)
  }

  predicate EndsLine(b: Buffer) {
    0 < b.len <= |b.data| && (b.data[b.len - 1] == LF || b.data[b.len - 1] == CR)
  }

  /**
   The client's `UART_RX_RDY` for `n` more bytes: a full buffer is queued, and so is one whose last byte ends a line.
   */
  function OnReady(c: Config, s: State, id: BufId, n: nat, answer: Option<BufId>): State
    requires id in s.pool
  {
    var b := s.pool[id].(len := s.pool[id].len + n);
    var s' := s.(pool := s.pool[id := b], bufRelease := false);
    if b.len == c.cap then s'.(rxFifo := s.rxFifo + [id])
    else if EndsLine(b) then
      RxDisable(c, s'.(rxFifo := s.rxFifo + [id], currentBuf := Some(id), bufRelease := true), answer)
    else s'
  }

  /** `notify_rx_buffer`. */
  function Notify(c: Config, s: State, answer: Option<BufId>): State {
    if s.buf.Some? && s.curr > s.lastNotify && s.buf.value in s.pool then
      OnReady(c, s.(lastNotify := s.curr), s.buf.value, s.curr - s.lastNotify, answer)
    else s
  }

  /** The client's `UART_RX_BUF_REQUEST`, answered through `rx_buf_rsp`. */
  function OnRequest(c: Config, s: State, answer: Option<BufId>): State {
    var (s', id) := Malloc(c, s, answer);
    if id.Some? && s'.nextBuf.None? then s'.(nextBuf := id, nextLen := c.cap) else s'
  }

  /** One `uart_fifo_read` into the current buffer; the driver hands over at most `limit` bytes. */
  function ReadCount(s: State, limit: nat): nat {
    Min(limit, Min(s.sizeLeft, |s.hw|))
  }

  function ReadFifo(s: State, limit: nat): State
    requires s.buf.Some? && s.buf.value in s.pool && s.curr + s.sizeLeft <= |s.pool[s.buf.value].data|
  {
    var n := ReadCount(s, limit);
    var b := s.pool[s.buf.value];
    s.(pool := s.pool[s.buf.value := b.(data := b.data[..s.curr] + s.hw[..n] + b.data[s.curr + n..])],
       curr := s.curr + n, sizeLeft := s.sizeLeft - n, hw := s.hw[n..], kept := s.kept + s.hw[..n])
  }

  /** Without a buffer the waiting bytes are thrown away. */
  function DropAll(s: State): State {
    s.(hw := [], lost := s.lost || |s.hw| > 0)
  }

  /** What the driver and the allocator do in one round of the read loop. */
  datatype Round = Round(limit: nat, onLine: Option<BufId>, onRequest: Option<BufId>)

  /** The buffer that the next read goes to is there. */
  predicate CanRead(c: Config, s: State) {
    s.sizeLeft > 0 && s.buf.Some? && s.buf.value in s.pool && s.curr + s.sizeLeft <= |s.pool[s.buf.value].data|
  }

  /** The head of one round: when the buffer is used up, notify it and take the next one. */
  function Refill(c: Config, s: State, r: Round): State {
    if s.sizeLeft == 0 then OnRequest(c, SwitchBuffer(Notify(c, s, r.onLine)), r.onRequest) else s
  }

  /** The read loop of `on_rx_ready`; it ends with the first read that returns nothing. */
  function ReadLoop(c: Config, s: State, rounds: seq<Round>, notifyNow: bool): (State, bool)
    decreases |rounds|
  {
    var r := if |rounds| > 0 then rounds[0] else Round(0, None, None);
    var s' := Refill(c, s, r);
    var pending := notifyNow && s.sizeLeft > 0;
    if !CanRead(c, s') then (DropAll(s'), pending)
    else
      var n := ReadCount(s', r.limit);
      var s'' := ReadFifo(s', r.limit);
      if n == 0 || |rounds| == 0 then (s'', pending || c.atOnce)
      else ReadLoop(c, s'', rounds[1..], pending || c.atOnce)
  }

  // ---------------------------------------------------------------- handlers

  datatype Event =
    | Arrive(bytes: seq<Byte>)
    | RxReady(rounds: seq<Round>, onLine: Option<BufId>)
    | RxTimeout(onLine: Option<BufId>)
    | Retry(answer: Option<BufId>)
    | RadioSend

  function Handle(c: Config, s: State, e: Event): State {
    match e
    case Arrive(bytes) => s.(hw := s.hw + bytes, arrived := s.arrived + bytes)
    case RxReady(rounds, onLine) =>
      if !s.enabled then s
      else
        var (s', notifyNow) := ReadLoop(c, s, rounds, false);
        if notifyNow then Notify(c, s', onLine) else s'
    case RxTimeout(onLine) => Notify(c, s, onLine)
    case Retry(answer) => if s.retryPending then OnDisabled(c, s.(retryPending := false), answer) else s
    case RadioSend =>
      if |s.rxFifo| == 0 then s
      else
        var id := s.rxFifo[0];
        Free(s.(rxFifo := s.rxFifo[1..], delivered := s.delivered + Meant(id, s.pool)), id)
  }

  function Run(c: Config, s: State, events: seq<Event>): State
    decreases |events|
  {
    if |events| == 0 then s else Handle(c, Run(c, s, events[..|events| - 1]), events[|events| - 1])
  }

  /** The state `uart_init` leaves: one buffer allocated and handed to the adapter. */
  function Start(c: Config, first: BufId): State {
    State(None, 0, 0, 0, Some(first), c.cap, true, None, false, [], false,
          map[first := Buffer(seq(c.cap, _ => 0), 0)], [], [], [], [], false, false, false)
  }

  // ---------------------------------------------------------------- the invariant

  /** The adapter still owns its buffer: it has not been notified to its end, which would have queued it. */
  predicate Holding(c: Config, s: State) {
    s.buf.Some? && s.lastNotify < c.cap
  }

  /** The adapter's positions and sizes, and that a byte or an allocation is lost only by starvation. */
  ghost predicate Shape(c: Config, s: State) {
    && c.cap > 0
    && (s.buf.Some? ==> s.lastNotify <= s.curr && s.curr + s.sizeLeft == c.cap)
    && (s.buf.None? ==> s.sizeLeft == 0)
    && s.nextLen == (if s.nextBuf.Some? then c.cap else 0)
    && !s.badFree
    && (s.lost ==> s.starved)
  }

  /** Whether `id` belongs to someone; `holding` says whether `buf` still belongs to the adapter. */
  ghost predicate Owned(s: State, holding: bool, id: BufId) {
    id in s.rxFifo || (holding && s.buf == Some(id)) || s.nextBuf == Some(id)
  }

  /** Every allocated buffer is queued, current or next, exactly one of these, and nothing else is allocated. */
  ghost predicate Ownership(s: State, holding: bool) {
    && NoDuplicates(s.rxFifo)
    && (forall id :: id in s.pool <==> Owned(s, holding, id))
    && (holding ==> s.buf.Some? && s.buf.value !in s.rxFifo && s.buf != s.nextBuf)
    && (s.nextBuf.Some? ==> s.nextBuf.value !in s.rxFifo)
  }

  /** `len` is the notified offset in the current buffer, zero in the next one. */
  ghost predicate Lengths(c: Config, s: State, holding: bool) {
    && (forall id :: id in s.pool ==> |s.pool[id].data| == c.cap && s.pool[id].len <= c.cap)
    && (holding ==> s.buf.Some? && s.buf.value in s.pool && s.pool[s.buf.value].len == s.lastNotify)
    && (s.nextBuf.Some? ==> s.nextBuf.value in s.pool && s.pool[s.nextBuf.value].len == 0)
  }

  /** The bytes of the current buffer that are not queued yet. */
  function Partial(s: State, holding: bool): seq<Byte> {
    if holding && s.buf.Some? && s.buf.value in s.pool && s.curr <= |s.pool[s.buf.value].data|
    then s.pool[s.buf.value].data[..s.curr] else []
  }

  /** Nothing that arrived is missing, unless a byte was dropped, and then something is. */
  predicate Accounted(s: State) {
    if s.lost then |s.kept| + |s.hw| < |s.arrived| else s.arrived == s.kept + s.hw
  }

  /** The bytes read into buffers, each once and in order. */
  ghost predicate Stream(s: State, holding: bool) {
    && s.kept == s.delivered + Flatten(s.rxFifo, s.pool) + Partial(s, holding)
    && Accounted(s)
  }

  /** As long as no allocation failed there is a next buffer; a release is only pending in a fresh buffer. */
  ghost predicate Fed(s: State) {
    && (!s.starved ==> s.enabled && s.nextBuf.Some?)
    && (s.enabled || s.retryPending)
    && (s.buf.Some? && s.lastNotify > 0 ==> !s.bufRelease)
    && (s.retryPending ==> s.buf.None? && s.nextBuf.None? && !s.enabled)
  }

  ghost predicate InvH(c: Config, s: State, holding: bool) {
    Shape(c, s) && Ownership(s, holding) && Lengths(c, s, holding) && Stream(s, holding)
  }

  ghost predicate Inv(c: Config, s: State) {
    InvH(c, s, Holding(c, s)) && Fed(s)
  }

  // ---------------------------------------------------------------- the pieces of a handler keep it

  /** What no step inside a handler changes, other than reads: the bytes themselves and who has them. */
  predicate SameBytesOnTheWay(s: State, s': State) {
    s'.hw == s.hw && s'.arrived == s.arrived && s'.kept == s.kept && s'.delivered == s.delivered && s'.lost == s.lost
    && (s.starved ==> s'.starved) && s.rxFifo <= s'.rxFifo
  }

  /** A block that belonged to nobody becomes the next buffer. */
  lemma AdoptNext(c: Config, s: State, s': State, holding: bool, id: BufId)
    requires InvH(c, s, holding) && s.nextBuf.None? && id !in s.pool
    requires s' == s.(pool := s.pool[id := Buffer(seq(c.cap, _ => 0), 0)], nextBuf := Some(id), nextLen := c.cap)
    ensures InvH(c, s', holding)
  {
    FlattenFrame(s.rxFifo, s.pool, s'.pool);
    assert Shape(c, s');
    assert Ownership(s', holding) by {
      forall i ensures i in s'.pool <==> Owned(s', holding, i) { assert i in s.pool <==> Owned(s, holding, i); }
    }
    assert holding ==> s.buf.value != id by { assert holding ==> Owned(s, holding, s.buf.value); }
    assert Lengths(c, s', holding);
    assert Partial(s', holding) == Partial(s, holding);
  }

  lemma OnRequestKeeps(c: Config, s: State, holding: bool, answer: Option<BufId>)
    requires InvH(c, s, holding) && s.nextBuf.None?
    ensures var s' := OnRequest(c, s, answer);
            && InvH(c, s', holding) && SameBytesOnTheWay(s, s')
            && (!s'.starved ==> s'.nextBuf.Some? && !s.starved)
            && s'.buf == s.buf && s'.curr == s.curr && s'.lastNotify == s.lastNotify && s'.sizeLeft == s.sizeLeft
            && s'.enabled == s.enabled && s'.bufRelease == s.bufRelease && s'.retryPending == s.retryPending
  {
    var (s', id) := Malloc(c, s, answer);
    if id.Some? {
      AdoptNext(c, s, OnRequest(c, s, answer), holding, id.value);
    } else {
      assert Partial(s', holding) == Partial(s, holding);
      assert Ownership(s', holding) by {
        forall i ensures i in s'.pool <==> Owned(s', holding, i) { assert i in s.pool <==> Owned(s, holding, i); }
      }
    }
  }

  /** A new buffer, or a retry later, once the adapter holds nothing. */
  lemma OnDisabledKeeps(c: Config, s: State, answer: Option<BufId>)
    requires InvH(c, s, false) && s.buf.None? && s.nextBuf.None? && !s.retryPending && !s.enabled
    ensures Inv(c, OnDisabled(c, s, answer)) && SameBytesOnTheWay(s, OnDisabled(c, s, answer))
  {
    var s' := OnDisabled(c, s, answer);
    if answer.Some? && answer.value !in s.pool {
      var idle := s.(curr := 0, sizeLeft := 0, enabled := true);
      SameOwners(c, s, idle, false);
      AdoptNext(c, idle, s', false, answer.value);
    } else {
      SameOwners(c, s, s', false);
    }
  }

  /** Fields that do not say who owns what do not matter to the ownership. */
  lemma SameOwners(c: Config, s: State, s': State, holding: bool)
    requires InvH(c, s, holding) && Shape(c, s')
    requires s'.pool == s.pool && s'.rxFifo == s.rxFifo && s'.buf == s.buf && s'.nextBuf == s.nextBuf
    requires s'.kept == s.kept && s'.delivered == s.delivered && Accounted(s')
    requires holding ==> s'.curr == s.curr && s'.lastNotify == s.lastNotify
    ensures InvH(c, s', holding)
  {
    assert Partial(s', holding) == Partial(s, holding);
    forall i ensures Owned(s', holding, i) <==> Owned(s, holding, i) {}
  }

  /** The next buffer, if any, becomes the current one; the old one is queued already and not freed. */
  lemma AdvanceKeeps(c: Config, s: State)
    requires InvH(c, s, false)
    ensures InvH(c, Advance(s), s.nextBuf.Some?) && Holding(c, Advance(s)) == s.nextBuf.Some?
  {
    var s' := Advance(s);
    forall i ensures Owned(s', s.nextBuf.Some?, i) <==> Owned(s, false, i) {}
    assert Partial(s', s.nextBuf.Some?) == [];
  }

  /** Freeing the buffer that the adapter holds unread takes it out of the pool. */
  lemma FreeHeld(c: Config, s: State, id: BufId)
    requires InvH(c, s, true) && s.buf == Some(id) && s.curr == 0 && s.nextBuf.None?
    ensures InvH(c, OnReleased(Advance(s), id), false) || !(s.bufRelease && s.currentBuf != Some(id))
    ensures s.bufRelease && s.currentBuf != Some(id) ==>
              OnReleased(Advance(s), id) == Free(Advance(s), id).(bufRelease := false, currentBuf := None)
  {
    if s.bufRelease && s.currentBuf != Some(id) {
      var s' := OnReleased(Advance(s), id);
      assert Owned(s, true, id);
      FlattenFrame(s.rxFifo, s.pool, s'.pool);
      forall i ensures i in s'.pool <==> Owned(s', false, i) { assert i in s.pool <==> Owned(s, true, i); }
      assert Partial(s, true) == [] == Partial(s', false);
    }
  }

  /** `rx_disable` after a line has ended: the line's buffer stays queued, the next buffer is freed. */
  lemma ReleaseAllKeeps(c: Config, s: State)
    requires InvH(c, s, false) && s.buf.Some? && s.buf.value in s.rxFifo && s.currentBuf == s.buf && s.bufRelease
    ensures var s' := ReleaseAll(s);
            InvH(c, s', false) && s'.buf.None? && s'.nextBuf.None? && SameBytesOnTheWay(s, s')
            && s'.retryPending == s.retryPending && s'.enabled == s.enabled
  {
    var s1 := SwitchBuffer(s);
    assert s1 == Advance(s);
    AdvanceKeeps(c, s);
    if s.nextBuf.Some? {
      var s2 := SwitchBuffer(s1);
      assert s.nextBuf.value !in s.rxFifo;
      FreeHeld(c, s1, s.nextBuf.value);
      assert ReleaseAll(s) == ReleaseAll(s1) == ReleaseAll(s2) == s2;
    } else {
      assert ReleaseAll(s) == ReleaseAll(s1) == s1;
    }
  }

  /** Queueing the current buffer, all of whose bytes are meant now. */
  lemma QueueCurrent(c: Config, s: State, s': State, id: BufId, b: Buffer)
    requires InvH(c, s, true) && s.buf == Some(id) && b == s.pool[id].(len := s.curr) && s.curr <= c.cap
    requires Shape(c, s') && s'.pool == s.pool[id := b] && s'.rxFifo == s.rxFifo + [id]
    requires s'.buf == s.buf && s'.nextBuf == s.nextBuf && s'.kept == s.kept && s'.delivered == s.delivered
    requires Accounted(s')
    ensures InvH(c, s', false)
  {
    hide Ownership, Lengths, Stream, Flatten, Meant, NoDuplicates;
    assert id in s.pool && id !in s.rxFifo by { CurrentIsOwned(s, id); }
    QueueCurrentOwners(c, s, s', id, b);
    QueueCurrentStream(c, s, s', id, b);
  }

  lemma CurrentIsOwned(s: State, id: BufId)
    requires Ownership(s, true) && s.buf == Some(id)
    ensures id in s.pool && id !in s.rxFifo && s.nextBuf != Some(id)
    ensures forall i :: i in s.rxFifo ==> i in s.pool && i != id
  {
    assert Owned(s, true, id);
    forall i | i in s.rxFifo ensures i in s.pool && i != id { assert Owned(s, true, i); }
  }

  lemma QueueCurrentOwners(c: Config, s: State, s': State, id: BufId, b: Buffer)
    requires Ownership(s, true) && Lengths(c, s, true) && s.buf == Some(id) && id in s.pool
    requires b == s.pool[id].(len := s.curr) && s.curr <= c.cap
    requires s'.pool == s.pool[id := b] && s'.rxFifo == s.rxFifo + [id] && s'.buf == s.buf && s'.nextBuf == s.nextBuf
    ensures Ownership(s', false) && Lengths(c, s', false)
  {
    CurrentIsOwned(s, id);
    forall i ensures i in s'.pool <==> Owned(s', false, i) { assert i in s.pool <==> Owned(s, true, i); }
  }

  lemma QueueCurrentStream(c: Config, s: State, s': State, id: BufId, b: Buffer)
    requires Ownership(s, true) && Lengths(c, s, true) && Stream(s, true) && s.buf == Some(id) && id in s.pool
    requires b == s.pool[id].(len := s.curr) && s.curr <= c.cap
    requires s'.pool == s.pool[id := b] && s'.rxFifo == s.rxFifo + [id]
    requires s'.kept == s.kept && s'.delivered == s.delivered && Accounted(s')
    ensures Stream(s', false)
  {
    CurrentIsOwned(s, id);
    FlattenFrame(s.rxFifo, s.pool, s'.pool);
    FlattenAppend(s.rxFifo, id, s'.pool);
    assert Meant(id, s'.pool) == Partial(s, true);
    Regroup(s.delivered, Flatten(s.rxFifo, s.pool), Partial(s, true), []);
  }

  /** Marking the bytes of the current buffer as meant, without queueing it. */
  lemma MarkCurrent(c: Config, s: State, s': State, id: BufId, b: Buffer)
    requires InvH(c, s, true) && s.buf == Some(id) && b == s.pool[id].(len := s.curr) && s.curr <= c.cap
    requires Shape(c, s') && s'.pool == s.pool[id := b] && s'.rxFifo == s.rxFifo && s'.curr == s.curr == s'.lastNotify
    requires s'.buf == s.buf && s'.nextBuf == s.nextBuf && s'.kept == s.kept && s'.delivered == s.delivered
    requires Accounted(s')
    ensures InvH(c, s', true)
  {
    assert Owned(s, true, id);
    FlattenFrame(s.rxFifo, s.pool, s'.pool);
    assert Partial(s', true) == Partial(s, true);
    forall i ensures i in s'.pool <==> Owned(s', true, i) { assert i in s.pool <==> Owned(s, true, i); }
  }

  /** The state after `UART_RX_RDY` has noted the new length. */
  function Noted(s: State): State
    requires s.buf.Some? && s.buf.value in s.pool
  {
    s.(lastNotify := s.curr, pool := s.pool[s.buf.value := s.pool[s.buf.value].(len := s.curr)], bufRelease := false)
  }

  lemma NotifyUnfolds(c: Config, s: State, answer: Option<BufId>)
    requires Inv(c, s) && s.buf.Some? && s.curr > s.lastNotify
    ensures s.buf.value in s.pool && Holding(c, s)
    ensures var b := s.pool[s.buf.value].(len := s.curr);
            var queued := Noted(s).(rxFifo := s.rxFifo + [s.buf.value]);
            Notify(c, s, answer) ==
            if s.curr == c.cap then queued
            else if EndsLine(b) then RxDisable(c, queued.(currentBuf := s.buf, bufRelease := true), answer)
            else Noted(s)
  {
    assert Owned(s, true, s.buf.value);
  }

  /** A line has ended: its buffer is queued, reception is disabled, and a new buffer is asked for. */
  lemma NotifyLine(c: Config, s: State, answer: Option<BufId>)
    requires Inv(c, s) && s.buf.Some? && s.curr > s.lastNotify && s.buf.value in s.pool && !s.retryPending
    ensures var queued := Noted(s).(rxFifo := s.rxFifo + [s.buf.value]);
            var s' := RxDisable(c, queued.(currentBuf := s.buf, bufRelease := true), answer);
            Inv(c, s') && SameBytesOnTheWay(s, s')
  {
    hide Inv, ReleaseAll, OnDisabled;
    var id := s.buf.value;
    var queued := Noted(s).(rxFifo := s.rxFifo + [id], currentBuf := s.buf, bufRelease := true, enabled := false);
    CurrentIsHeld(c, s);
    QueueCurrent(c, s, queued, id, s.pool[id].(len := s.curr));
    ReleaseAllKeeps(c, queued);
    OnDisabledKeeps(c, ReleaseAll(queued), answer);
  }

  lemma CurrentIsHeld(c: Config, s: State)
    requires Inv(c, s) && s.buf.Some? && s.curr > s.lastNotify && s.buf.value in s.pool
    ensures InvH(c, s, true) && s.curr <= c.cap && Shape(c, s)
    ensures Accounted(s)
  {}

  lemma NotifyKeeps(c: Config, s: State, answer: Option<BufId>)
    requires Inv(c, s)
    ensures Inv(c, Notify(c, s, answer)) && SameBytesOnTheWay(s, Notify(c, s, answer))
  {
    if s.buf.Some? && s.curr > s.lastNotify {
      NotifyUnfolds(c, s, answer);
      hide Notify, RxDisable;
      var id := s.buf.value;
      var b := s.pool[id].(len := s.curr);
      if s.curr == c.cap {
        QueueCurrent(c, s, Noted(s).(rxFifo := s.rxFifo + [id]), id, b);
      } else if EndsLine(b) {
        NotifyLine(c, s, answer);
      } else {
        MarkCurrent(c, s, Noted(s), id, b);
      }
    }
  }

  /** Notifying a full buffer, or none, queues it and disables nothing. */
  lemma NotifyFull(c: Config, s: State, answer: Option<BufId>)
    requires Inv(c, s) && s.sizeLeft == 0
    ensures var s' := Notify(c, s, answer);
            && s'.buf == s.buf && s'.nextBuf == s.nextBuf && s'.sizeLeft == 0 && s'.enabled == s.enabled
            && s'.starved == s.starved && s'.retryPending == s.retryPending
            && (s.buf.Some? ==> s'.lastNotify == c.cap)
  {
    if s.buf.Some? && s.curr > s.lastNotify { NotifyUnfolds(c, s, answer); }
  }

  lemma SwitchKeeps(c: Config, s: State)
    requires Inv(c, s) && s.sizeLeft == 0 && (s.buf.Some? ==> s.lastNotify == c.cap)
    ensures var s' := SwitchBuffer(s);
            && s' == Advance(s) && InvH(c, s', Holding(c, s')) && Holding(c, s') == s.nextBuf.Some?
  {
    AdvanceKeeps(c, s);
  }

  /**
   After the head of a round there is room to read, unless the switch found no next buffer, an allocation having
   failed.
   */
  lemma RefillKeeps(c: Config, s: State, r: Round)
    requires Inv(c, s) && !s.retryPending
    ensures var s' := Refill(c, s, r);
            && Inv(c, s') && SameBytesOnTheWay(s, s') && !s'.retryPending
            && (!CanRead(c, s') ==> s.sizeLeft == 0 && s.nextBuf.None? && s'.sizeLeft == 0 && s'.starved)
  {
    if s.sizeLeft == 0 {
      var s1 := Notify(c, s, r.onLine);
      NotifyKeeps(c, s, r.onLine);
      NotifyFull(c, s, r.onLine);
      SwitchKeeps(c, s1);
      var s2 := SwitchBuffer(s1);
      OnRequestKeeps(c, s2, Holding(c, s2), r.onRequest);
      var s3 := OnRequest(c, s2, r.onRequest);
      assert Holding(c, s3) == Holding(c, s2);
      if Holding(c, s3) { assert Owned(s3, true, s3.buf.value); }
    } else {
      assert Owned(s, true, s.buf.value);
    }
  }

  lemma ReadKeeps(c: Config, s: State, limit: nat)
    requires Inv(c, s) && CanRead(c, s)
    ensures Inv(c, ReadFifo(s, limit)) && ReadFifo(s, limit).retryPending == s.retryPending
  {
    ReadKeepsOwners(c, s, limit);
    ReadKeepsStream(c, s, limit);
  }

  lemma ReadKeepsOwners(c: Config, s: State, limit: nat)
    requires Ownership(s, true) && Lengths(c, s, true) && Shape(c, s) && CanRead(c, s)
    ensures Ownership(ReadFifo(s, limit), true) && Lengths(c, ReadFifo(s, limit), true)
  {
    var s' := ReadFifo(s, limit);
    forall i ensures i in s'.pool <==> Owned(s', true, i) { assert i in s.pool <==> Owned(s, true, i); }
  }

  lemma ReadKeepsStream(c: Config, s: State, limit: nat)
    requires Ownership(s, true) && Stream(s, true) && CanRead(c, s)
    ensures Stream(ReadFifo(s, limit), true)
  {
    var n := ReadCount(s, limit);
    var id := s.buf.value;
    var s' := ReadFifo(s, limit);
    forall i | i in s.rxFifo ensures i in s.pool && i != id { assert Owned(s, true, i); }
    FlattenFrame(s.rxFifo, s.pool, s'.pool);
    assert Partial(s', true) == Partial(s, true) + s.hw[..n];
    assert s.hw == s.hw[..n] + s.hw[n..];
  }

  lemma DropKeeps(c: Config, s: State)
    requires Inv(c, s) && s.starved
    ensures Inv(c, DropAll(s))
  {
    SameOwners(c, s, DropAll(s), Holding(c, s));
  }

  lemma {:induction false} ReadLoopKeeps(c: Config, s: State, rounds: seq<Round>, notifyNow: bool)
    requires Inv(c, s) && !s.retryPending
    ensures var (s', _) := ReadLoop(c, s, rounds, notifyNow); Inv(c, s') && (s.starved ==> s'.starved)
    decreases |rounds|
  {
    hide Inv, Refill;
    var r := if |rounds| > 0 then rounds[0] else Round(0, None, None);
    var s' := Refill(c, s, r);
    RefillKeeps(c, s, r);
    if CanRead(c, s') {
      ReadKeeps(c, s', r.limit);
      if ReadCount(s', r.limit) > 0 && |rounds| > 0 {
        var pending := notifyNow && s.sizeLeft > 0;
        ReadLoopKeeps(c, ReadFifo(s', r.limit), rounds[1..], pending || c.atOnce);
      }
    } else {
      DropKeeps(c, s');
    }
  }

  /** The loop goes on until nothing is waiting: each read that hands over a byte is followed by another. */
  lemma {:induction false} ReadLoopDrains(c: Config, s: State, rounds: seq<Round>, notifyNow: bool)
    requires Inv(c, s) && !s.retryPending
    requires |rounds| >= |s.hw| && forall i :: 0 <= i < |rounds| ==> rounds[i].limit > 0
    ensures ReadLoop(c, s, rounds, notifyNow).0.hw == []
    decreases |rounds|
  {
    hide Inv, Refill;
    var r := if |rounds| > 0 then rounds[0] else Round(0, None, None);
    var s' := Refill(c, s, r);
    RefillKeeps(c, s, r);
    if CanRead(c, s') {
      ReadKeeps(c, s', r.limit);
      if ReadCount(s', r.limit) > 0 && |rounds| > 0 {
        var pending := notifyNow && s.sizeLeft > 0;
        ReadLoopDrains(c, ReadFifo(s', r.limit), rounds[1..], pending || c.atOnce);
      }
    }
  }

  // ---------------------------------------------------------------- every handler keeps it

  lemma HandleKeeps(c: Config, s: State, e: Event)
    requires Inv(c, s)
    ensures Inv(c, Handle(c, s, e)) && (s.starved ==> Handle(c, s, e).starved)
  {
    match e
    case Arrive(bytes) => SameOwners(c, s, Handle(c, s, e), Holding(c, s));
    case RxReady(rounds, onLine) =>
      if s.enabled {
        ReadLoopKeeps(c, s, rounds, false);
        NotifyKeeps(c, ReadLoop(c, s, rounds, false).0, onLine);
      }
    case RxTimeout(onLine) => NotifyKeeps(c, s, onLine);
    case Retry(answer) =>
      if s.retryPending {
        SameOwners(c, s, s.(retryPending := false), false);
        OnDisabledKeeps(c, s.(retryPending := false), answer);
      }
    case RadioSend => RadioSendKeeps(c, s);
  }

  lemma RadioSendKeeps(c: Config, s: State)
    requires Inv(c, s)
    ensures Inv(c, Handle(c, s, RadioSend))
  {
    if |s.rxFifo| > 0 { SendFirst(c, s, Handle(c, s, RadioSend), Holding(c, s)); }
  }

  /** The radio takes the first queued buffer and frees it. */
  lemma SendFirst(c: Config, s: State, s': State, h: bool)
    requires InvH(c, s, h) && |s.rxFifo| > 0
    requires s' == Free(s.(rxFifo := s.rxFifo[1..], delivered := s.delivered + Meant(s.rxFifo[0], s.pool)), s.rxFifo[0])
    ensures InvH(c, s', h)
  {
    hide Ownership, Lengths, Stream;
    assert s.rxFifo[0] in s.pool by { FirstIsOwned(c, s, h); }
    SendFirstOwners(c, s, s', h);
    SendFirstStream(c, s, s', h);
  }

  lemma FirstIsOwned(c: Config, s: State, h: bool)
    requires Ownership(s, h) && |s.rxFifo| > 0
    ensures s.rxFifo[0] in s.pool && s.nextBuf != Some(s.rxFifo[0]) && !(h && s.buf == Some(s.rxFifo[0]))
    ensures forall i :: i in s.rxFifo[1..] ==> i in s.pool && i != s.rxFifo[0]
  {
    assert Owned(s, h, s.rxFifo[0]);
    forall i | i in s.rxFifo[1..] ensures i in s.pool && i != s.rxFifo[0] { assert Owned(s, h, i); }
  }

  lemma SendFirstOwners(c: Config, s: State, s': State, h: bool)
    requires Ownership(s, h) && Lengths(c, s, h) && |s.rxFifo| > 0
    requires s'.rxFifo == s.rxFifo[1..] && s'.pool == s.pool - {s.rxFifo[0]}
    requires s'.buf == s.buf && s'.nextBuf == s.nextBuf && s'.lastNotify == s.lastNotify
    ensures Ownership(s', h) && Lengths(c, s', h)
  {
    var id := s.rxFifo[0];
    FirstIsOwned(c, s, h);
    forall i ensures i in s'.pool <==> Owned(s', h, i) {
      assert i in s.pool <==> Owned(s, h, i);
      assert i in s.rxFifo <==> i == id || i in s'.rxFifo;
    }
    if h { assert Owned(s, h, s.buf.value); }
  }

  lemma SendFirstStream(c: Config, s: State, s': State, h: bool)
    requires Ownership(s, h) && Stream(s, h) && |s.rxFifo| > 0
    requires s'.rxFifo == s.rxFifo[1..] && s'.pool == s.pool - {s.rxFifo[0]}
    requires s'.buf == s.buf && s'.curr == s.curr && s'.kept == s.kept && s'.arrived == s.arrived && s'.hw == s.hw
    requires s'.lost == s.lost && s'.delivered == s.delivered + Meant(s.rxFifo[0], s.pool)
    ensures Stream(s', h)
  {
    hide Flatten, Meant;
    FirstIsOwned(c, s, h);
    FlattenFirst(s.rxFifo, s.pool);
    FlattenFrame(s'.rxFifo, s.pool, s'.pool);
    assert Partial(s', h) == Partial(s, h);
    Regroup(s.delivered, Meant(s.rxFifo[0], s.pool), Flatten(s'.rxFifo, s.pool), Partial(s, h));
  }

  lemma Regroup(a: seq<Byte>, b: seq<Byte>, c: seq<Byte>, d: seq<Byte>)
    ensures a + (b + c) + d == (a + b) + c + d
  {}

  // ---------------------------------------------------------------- when bytes go on to the radio

  /** The buffer is full, or the last byte read is a line feed or a carriage return. */
  predicate Complete(c: Config, s: State)
    requires s.buf.Some? && s.buf.value in s.pool && 0 < s.curr <= |s.pool[s.buf.value].data|
  {
    s.curr == c.cap || s.pool[s.buf.value].data[s.curr - 1] == 10 || s.pool[s.buf.value].data[s.curr - 1] == 13
  }

  /**
   A notification hands the buffer to the radio exactly when it is full or ends a line; then nothing read is held back.
   */
  lemma CompleteBuffersGoOut(c: Config, s: State, answer: Option<BufId>)
    requires Inv(c, s) && s.buf.Some? && s.curr > s.lastNotify
    ensures s.buf.value in s.pool && s.curr <= |s.pool[s.buf.value].data|
    ensures var s' := Notify(c, s, answer);
            && (Complete(c, s) ==>
                  s'.rxFifo == s.rxFifo + [s.buf.value] && s'.kept == s'.delivered + Flatten(s'.rxFifo, s'.pool))
            && (!Complete(c, s) ==>
                  s'.rxFifo == s.rxFifo && s'.buf == s.buf && s'.lastNotify == s.curr && s'.enabled == s.enabled)
  {
    CurrentIsAllocated(c, s);
    LengthOfCurrent(c, s);
    if s.curr == c.cap {
      FullBufferGoesOut(c, s, answer);
    } else if Complete(c, s) {
      LineGoesOut(c, s, answer);
    } else {
      PartialBufferStays(c, s, answer);
    }
  }

  lemma CurrentIsAllocated(c: Config, s: State)
    requires Inv(c, s) && s.buf.Some? && s.curr > s.lastNotify
    ensures s.buf.value in s.pool
  {
    NotifyUnfolds(c, s, None);
  }

  lemma FullBufferGoesOut(c: Config, s: State, answer: Option<BufId>)
    requires Inv(c, s) && s.buf.Some? && s.curr > s.lastNotify && s.curr == c.cap
    ensures var s' := Notify(c, s, answer);
            s'.rxFifo == s.rxFifo + [s.buf.value] && s'.kept == s'.delivered + Flatten(s'.rxFifo, s'.pool)
  {
    NotifyUnfolds(c, s, answer);
    NotifyKeeps(c, s, answer);
    hide Inv, RxDisable, Notify;
    NothingHeldBack(c, Notify(c, s, answer));
  }

  lemma LineGoesOut(c: Config, s: State, answer: Option<BufId>)
    requires Inv(c, s) && s.buf.Some? && s.curr > s.lastNotify && s.buf.value in s.pool && s.curr < c.cap
    requires s.curr <= |s.pool[s.buf.value].data| && Complete(c, s)
    ensures var s' := Notify(c, s, answer);
            s'.rxFifo == s.rxFifo + [s.buf.value] && s'.kept == s'.delivered + Flatten(s'.rxFifo, s'.pool)
  {
    NotifyUnfolds(c, s, answer);
    NotifyKeeps(c, s, answer);
    LineEndsBuffer(c, s, answer);
    hide Inv, RxDisable, Notify;
    NothingHeldBack(c, Notify(c, s, answer));
  }

  lemma PartialBufferStays(c: Config, s: State, answer: Option<BufId>)
    requires Inv(c, s) && s.buf.Some? && s.curr > s.lastNotify && s.buf.value in s.pool
    requires s.curr <= |s.pool[s.buf.value].data| && !Complete(c, s)
    ensures var s' := Notify(c, s, answer);
            s'.rxFifo == s.rxFifo && s'.buf == s.buf && s'.lastNotify == s.curr && s'.enabled == s.enabled
  {
    NotifyUnfolds(c, s, answer);
    hide Inv, RxDisable, Notify;
  }

  lemma LengthOfCurrent(c: Config, s: State)
    requires Inv(c, s) && s.buf.Some? && s.buf.value in s.pool
    ensures s.curr <= c.cap == |s.pool[s.buf.value].data|
  {}

  lemma NothingHeldBack(c: Config, s: State)
    requires Inv(c, s) && !Holding(c, s)
    ensures s.kept == s.delivered + Flatten(s.rxFifo, s.pool)
  {}

  lemma LineEndsBuffer(c: Config, s: State, answer: Option<BufId>)
    requires Inv(c, s) && s.buf.Some? && s.curr > s.lastNotify && s.buf.value in s.pool
    ensures var queued := Noted(s).(rxFifo := s.rxFifo + [s.buf.value], currentBuf := s.buf, bufRelease := true);
            var s' := RxDisable(c, queued, answer);
            s'.buf.None? && s'.rxFifo == queued.rxFifo
  {
    hide ReleaseAll, InvH, OnDisabled;
    var id := s.buf.value;
    var queued := Noted(s).(rxFifo := s.rxFifo + [id], currentBuf := s.buf, bufRelease := true, enabled := false);
    CurrentIsHeld(c, s);
    QueueCurrent(c, s, queued, id, s.pool[id].(len := s.curr));
    ReleaseAllKeepsQueue(c, queued);
    DisabledLeavesQueue(c, ReleaseAll(queued), answer);
  }

  lemma ReleaseAllKeepsQueue(c: Config, s: State)
    requires InvH(c, s, false) && s.buf.Some? && s.buf.value in s.rxFifo && s.currentBuf == s.buf && s.bufRelease
    ensures ReleaseAll(s).rxFifo == s.rxFifo && ReleaseAll(s).buf.None?
  {
    ReleaseAllKeeps(c, s);
    assert SwitchBuffer(s) == Advance(s);
    if s.nextBuf.Some? {
      var s2 := SwitchBuffer(SwitchBuffer(s));
      assert s2.buf.None? && ReleaseAll(s) == ReleaseAll(SwitchBuffer(s)) == ReleaseAll(s2) == s2;
    }
  }

  lemma DisabledLeavesQueue(c: Config, s: State, answer: Option<BufId>)
    requires s.buf.None?
    ensures OnDisabled(c, s, answer).rxFifo == s.rxFifo && OnDisabled(c, s, answer).buf.None?
  {}

  /** After the receive timeout nothing that was read is left unnotified. */
  lemma NotifyLeavesNothing(c: Config, s: State, answer: Option<BufId>)
    requires Inv(c, s)
    ensures var s' := Notify(c, s, answer); s'.buf.Some? ==> s'.lastNotify == s'.curr
  {
    if s.buf.Some? && s.curr > s.lastNotify {
      CompleteBuffersGoOut(c, s, answer);
      NotifyUnfolds(c, s, answer);
      if s.curr < c.cap { LineEndsBuffer(c, s, answer); }
    }
  }

  /** With a receive timeout of zero the interrupt handler itself leaves nothing unnotified. */
  lemma AtOnceLeavesNothing(c: Config, s: State, rounds: seq<Round>, onLine: Option<BufId>)
    requires Inv(c, s) && s.enabled && c.atOnce
    ensures var s' := Handle(c, s, RxReady(rounds, onLine)); s'.buf.Some? ==> s'.lastNotify == s'.curr
  {
    hide Notify, ReadLoop;
    ReadLoopKeeps(c, s, rounds, false);
    var (s', notifyNow) := ReadLoop(c, s, rounds, false);
    ReadLoopEndsNotifying(c, s, rounds, false);
    if notifyNow { NotifyLeavesNothing(c, s', onLine); }
  }

  lemma {:induction false} ReadLoopEndsNotifying(c: Config, s: State, rounds: seq<Round>, notifyNow: bool)
    requires Inv(c, s) && !s.retryPending && c.atOnce
    ensures var (s', pending) := ReadLoop(c, s, rounds, notifyNow); pending || s'.buf.None?
    decreases |rounds|
  {
    hide Inv, Refill;
    var r := if |rounds| > 0 then rounds[0] else Round(0, None, None);
    var s' := Refill(c, s, r);
    RefillKeeps(c, s, r);
    if CanRead(c, s') {
      ReadKeeps(c, s', r.limit);
      if ReadCount(s', r.limit) > 0 && |rounds| > 0 {
        ReadLoopEndsNotifying(c, ReadFifo(s', r.limit), rounds[1..], (notifyNow && s.sizeLeft > 0) || c.atOnce);
      }
    } else {
      DroppingHasNoBuffer(c, s, r);
    }
  }

  lemma DroppingHasNoBuffer(c: Config, s: State, r: Round)
    requires Inv(c, s) && !s.retryPending && !CanRead(c, Refill(c, s, r))
    ensures Refill(c, s, r).buf.None?
  {
    RefillKeeps(c, s, r);
    NotifyFull(c, s, r.onLine);
    var s1 := Notify(c, s, r.onLine);
    NotifyKeeps(c, s, r.onLine);
    SwitchKeeps(c, s1);
    OnRequestKeeps(c, SwitchBuffer(s1), Holding(c, SwitchBuffer(s1)), r.onRequest);
  }

  // ---------------------------------------------------------------- every run

  lemma StartIsGood(c: Config, first: BufId)
    requires c.cap > 0
    ensures Inv(c, Start(c, first))
  {
    var s := Start(c, first);
    forall i ensures i in s.pool <==> Owned(s, false, i) {}
    assert Flatten(s.rxFifo, s.pool) == [];
  }

  lemma {:induction false} RunKeeps(c: Config, s: State, events: seq<Event>)
    requires Inv(c, s)
    ensures Inv(c, Run(c, s, events))
    decreases |events|
  {
    hide Inv, Handle;
    if |events| > 0 {
      RunKeeps(c, s, events[..|events| - 1]);
      HandleKeeps(c, Run(c, s, events[..|events| - 1]), events[|events| - 1]);
    }
  }

  /**
   The end-to-end theorem, for every sequence of handlers and every behaviour of the driver and the allocator: what
   was read from the UART is, in order and each byte once, what the radio has sent, what is queued for it, and the
   current partial buffer.  If no allocation failed, nothing that arrived is missing, and reception is on.
   */
  lemma RxEndToEnd(c: Config, first: BufId, events: seq<Event>)
    requires c.cap > 0
    ensures var s := Run(c, Start(c, first), events);
            var h := Holding(c, s);
            && s.kept == s.delivered + Flatten(s.rxFifo, s.pool) + Partial(s, h)
            && (s.enabled || s.retryPending) && (s.lost ==> |s.kept| + |s.hw| < |s.arrived|)
            && (!s.starved ==>
                  && s.enabled && !s.lost
                  && s.arrived == s.delivered + Flatten(s.rxFifo, s.pool) + Partial(s, h) + s.hw)
  {
    StartIsGood(c, first);
    RunKeeps(c, Start(c, first), events);
  }

  /**
   No buffer is freed twice or leaked, in any run: the allocated buffers are exactly those queued, current or next, no
   buffer is two of these, and `len` of the current one is the offset that the adapter has notified.
   */
  lemma BuffersHaveOneOwner(c: Config, first: BufId, events: seq<Event>)
    requires c.cap > 0
    ensures var s := Run(c, Start(c, first), events);
            var h := Holding(c, s);
            && !s.badFree && NoDuplicates(s.rxFifo)
            && (forall id :: id in s.pool <==> Owned(s, h, id))
            && (h ==> s.buf.value !in s.rxFifo && s.buf != s.nextBuf && s.pool[s.buf.value].len == s.lastNotify)
            && (s.nextBuf.Some? ==> s.nextBuf.value !in s.rxFifo)
  {
    StartIsGood(c, first);
    RunKeeps(c, Start(c, first), events);
    var s := Run(c, Start(c, first), events);
    if Holding(c, s) { assert Owned(s, true, s.buf.value); }
  }
}
