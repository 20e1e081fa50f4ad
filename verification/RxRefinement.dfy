/**
 The two models of the receive side agree: whatever the adapter and its one client do in `UartRx`, the adapter of
 `RxAdapter` does too, under the client whose scripts are found here.  So what is proved there of any client holds of
 this one, and this client always restocks as long as its allocations succeed.
 */
module RxRefinement {
  import opened Bytes
  import opened Buffers
  import U = UartRx
  import A = RxAdapter

  /** The adapter's part of the two states is the same. */
  predicate Same(u: U.State, a: A.State) {
    && a.hasBuf == u.buf.Some? && a.curr == u.curr && a.lastNotify == u.lastNotify && a.sizeLeft == u.sizeLeft
    && a.hasNext == u.nextBuf.Some? && a.nextLen == u.nextLen && a.enabled == u.enabled
  }

  lemma SwitchIs(u: U.State, a: A.State)
    requires Same(u, a)
    ensures Same(U.SwitchBuffer(u), A.Switched(a))
  {}

  lemma {:induction false} ReleaseIs(u: U.State, a: A.State)
    requires Same(u, a)
    ensures Same(U.ReleaseAll(u), A.ReleaseAll(a, A.Quiet))
    decreases u.buf.Some?, u.nextBuf.Some?
  {
    if u.buf.Some? {
      SwitchIs(u, a);
      ReleaseIs(U.SwitchBuffer(u), A.Switched(a));
    }
  }

  lemma PerformThis(a: A.State, call: A.Call)
    ensures A.Perform(a, A.Then(call, A.Done)) == A.PerformOne(a, call) && A.Perform(a, A.Done) == a
  {}

  predicate Granted(u: U.State, answer: Option<BufId>) {
    answer.Some? && answer.value !in u.pool
  }

  lemma MallocEffect(c: U.Config, u: U.State, answer: Option<BufId>)
    ensures var (u', id) := U.Malloc(c, u, answer);
            && id == (if Granted(u, answer) then answer else None) && (Granted(u, answer) || u'.starved)
            && SameFields(u, u') && u'.enabled == u.enabled
  {}

  /** The adapter's positions and buffers are untouched. */
  predicate SameFields(u: U.State, u': U.State) {
    && u'.buf == u.buf && u'.curr == u.curr && u'.lastNotify == u.lastNotify && u'.sizeLeft == u.sizeLeft
    && u'.nextBuf == u.nextBuf && u'.nextLen == u.nextLen
  }

  lemma OnDisabledEffect(c: U.Config, u: U.State, answer: Option<BufId>)
    ensures var u' := U.OnDisabled(c, u, answer);
            if Granted(u, answer) then
              && u'.lastNotify == u.lastNotify && u'.buf.None? && u'.curr == 0 && u'.sizeLeft == 0
              && u'.nextBuf.Some? && u'.nextLen == c.cap && u'.enabled
            else SameFields(u, u') && u'.enabled == u.enabled && u'.starved
  {
    MallocEffect(c, u, answer);
    assert Granted(u, answer) ==> answer.Some?;
    hide U.Malloc, Granted;
  }

  lemma OnRequestEffect(c: U.Config, u: U.State, answer: Option<BufId>)
    ensures var u' := U.OnRequest(c, u, answer);
            && u'.enabled == u.enabled && (Granted(u, answer) || u'.starved)
            && if Granted(u, answer) && u.nextBuf.None? then
                 && u'.buf == u.buf && u'.curr == u.curr && u'.lastNotify == u.lastNotify && u'.sizeLeft == u.sizeLeft
                 && u'.nextBuf.Some? && u'.nextLen == c.cap
               else SameFields(u, u')
  {
    MallocEffect(c, u, answer);
    assert Granted(u, answer) ==> answer.Some?;
    hide U.Malloc, Granted;
  }

  /** What the client does when reception is reported disabled: it enables it again if it gets a buffer. */
  lemma OnDisabledIs(c: U.Config, u: U.State, a: A.State, answer: Option<BufId>) returns (script: A.Calls)
    requires Same(u, a) && c.cap > 0
    ensures Same(U.OnDisabled(c, u, answer), A.Perform(a, script))
    ensures A.NonEmpty(script)
  {
    OnDisabledEffect(c, u, answer);
    PerformThis(a, A.Enable(c.cap));
    EnableIsNonEmpty(c.cap);
    hide U.OnDisabled, U.Malloc, A.Perform, A.NonEmpty, Granted;
    script := if Granted(u, answer) then A.Then(A.Enable(c.cap), A.Done) else A.Done;
  }

  lemma EnableIsNonEmpty(len: nat)
    requires len > 0
    ensures A.NonEmpty(A.Done) && A.NonEmpty(A.Then(A.Enable(len), A.Done))
  {
    assert A.NonEmpty(A.Done);
  }

  lemma DisableIs(c: U.Config, u: U.State, a: A.State, answer: Option<BufId>) returns (script: A.Calls)
    requires Same(u, a) && c.cap > 0
    ensures Same(U.RxDisable(c, u, answer), A.Perform(a, script))
    ensures A.NonEmpty(script)
  {
    var off := a.(enabled := false);
    ReleaseIs(u.(enabled := false), off);
    var onDisabled := OnDisabledIs(c, U.ReleaseAll(u.(enabled := false)), A.ReleaseAll(off, A.Quiet), answer);
    script := A.Then(A.Disable(A.Quiet, onDisabled), A.Done);
    assert A.NonEmpty(A.Done) && A.NonEmptyScripts(A.Quiet);
    assert A.Perform(a, script) == A.PerformOne(a, A.Disable(A.Quiet, onDisabled));
  }

  lemma NotifyIs(c: U.Config, u: U.State, a: A.State, answer: Option<BufId>) returns (script: A.Calls)
    requires U.Inv(c, u) && Same(u, a)
    ensures Same(U.Notify(c, u, answer), A.Notify(a, script))
    ensures A.NonEmpty(script)
    ensures u.sizeLeft == 0 ==> script == A.Done
  {
    script := A.Done;
    assert A.NonEmpty(A.Done);
    if u.buf.Some? && u.curr > u.lastNotify {
      U.NotifyUnfolds(c, u, answer);
      var queued := U.Noted(u).(rxFifo := u.rxFifo + [u.buf.value]);
      if u.curr < c.cap && U.EndsLine(u.pool[u.buf.value].(len := u.curr)) {
        hide U.Inv, U.RxDisable, A.Perform;
        script := DisableIs(c, queued.(currentBuf := u.buf, bufRelease := true), A.Notified(a), answer);
      }
    }
  }

  lemma RequestIs(c: U.Config, u: U.State, a: A.State, answer: Option<BufId>) returns (script: A.Calls)
    requires Same(u, a) && c.cap > 0
    ensures Same(U.OnRequest(c, u, answer), A.Perform(a, script)) && A.OnlyAnswers(script)
    ensures U.OnRequest(c, u, answer).starved || script.Then?
  {
    OnRequestEffect(c, u, answer);
    hide U.OnRequest;
    PerformThis(a, A.BufRsp(c.cap));
    assert A.OnlyAnswers(A.Done);
    script := if Granted(u, answer) then A.Then(A.BufRsp(c.cap), A.Done) else A.Done;
  }

  lemma RefillIs(c: U.Config, u: U.State, a: A.State, r: U.Round, room: nat) returns (p: A.Pass)
    requires U.Inv(c, u) && Same(u, a) && u.sizeLeft == 0
    ensures Same(U.Refill(c, u, r), A.Refill(a, p)) && p.room == room
    ensures U.Refill(c, u, r).starved || A.DiligentPass(p)
  {
    var onReady := NotifyIs(c, u, a, r.onLine);
    var u1, a1 := U.Notify(c, u, r.onLine), A.Notify(a, onReady);
    SwitchIs(u1, a1);
    var onRequest := RequestIs(c, U.SwitchBuffer(u1), A.Switched(a1), r.onRequest);
    p := A.Pass(onReady, A.Done, onRequest, room);
    assert A.Stocked(A.Done, true) && A.OnlyAnswers(A.Done);
    assert A.Perform(A.Switched(a1), A.Done) == A.Switched(a1);
  }

  /** The state of `UartRx` after one round: bytes are read if there is a buffer, dropped otherwise. */
  function RoundOf(c: U.Config, u: U.State, r: U.Round): U.State {
    var u' := U.Refill(c, u, r);
    if U.CanRead(c, u') then U.ReadFifo(u', r.limit) else U.DropAll(u')
  }

  /** After the head of the round: the read takes what the pass takes, and without a buffer both drop. */
  lemma AfterRefillIs(c: U.Config, u: U.State, a: A.State, limit: nat)
    requires Same(u, a) && (U.CanRead(c, u) <==> u.sizeLeft > 0)
    ensures a.sizeLeft > 0 <==> U.CanRead(c, u)
    ensures U.CanRead(c, u) ==>
              Same(U.ReadFifo(u, limit), A.Read(a, Min(U.ReadCount(u, limit), a.sizeLeft)))
              && U.ReadFifo(u, limit).starved == u.starved
    ensures Same(U.DropAll(u), a) && U.DropAll(u).starved == u.starved
  {}

  /** A round is a pass, and it drops exactly if the pass does. */
  lemma RoundIs(c: U.Config, u: U.State, a: A.State, r: U.Round) returns (p: A.Pass)
    requires U.Inv(c, u) && !u.retryPending && Same(u, a)
    ensures Same(RoundOf(c, u, r), A.OnePass(a, p).0)
    ensures A.OnePass(a, p).1 <==> !U.CanRead(c, U.Refill(c, u, r))
    ensures RoundOf(c, u, r).starved || A.DiligentPass(p)
  {
    U.RefillKeeps(c, u, r);
    var u' := U.Refill(c, u, r);
    var room := U.ReadCount(u', r.limit);
    var a' := a;
    assert c.cap > 0;
    if u.sizeLeft == 0 {
      p := RefillIs(c, u, a, r, room);
      a' := A.Refill(a, p);
    } else {
      p := A.Pass(A.Done, A.Done, A.Then(A.BufRsp(c.cap), A.Done), room);
      DonePassIsDiligent(c, room);
    }
    hide U.Inv, U.ReadFifo, U.DropAll, U.ReadCount, U.CanRead, A.Refill, A.DiligentPass;
    assert Same(u', a');
    AfterRefillIs(c, u', a', r.limit);
  }

  lemma DonePassIsDiligent(c: U.Config, room: nat)
    ensures c.cap > 0 ==> A.DiligentPass(A.Pass(A.Done, A.Done, A.Then(A.BufRsp(c.cap), A.Done), room))
  {
    assert A.Stocked(A.Done, true) && A.OnlyAnswers(A.Done);
  }

  // ---------------------------------------------------------------- handlers and runs

  predicate AllDiligent(events: seq<A.Event>) {
    forall e :: e in events ==> A.Diligent(e)
  }

  lemma {:induction false} RunConcat(a: A.State, es: seq<A.Event>, fs: seq<A.Event>)
    ensures A.Run(a, es + fs) == A.Run(A.Run(a, es), fs)
    decreases |fs|
  {
    if |fs| == 0 {
      assert es + fs == es;
    } else {
      var n := |fs| - 1;
      RunConcat(a, es, fs[..n]);
      assert (es + fs)[..|es| + n] == es + fs[..n];
    }
  }

  lemma OneEvent(a: A.State, e: A.Event)
    ensures A.Run(a, [e]) == A.Handle(a, e).0
  {
    assert [e][..0] == [];
    assert A.Run(a, []) == a;
  }

  lemma {:induction false} LoopIs(c: U.Config, u: U.State, a: A.State, rounds: seq<U.Round>, notifyNow: bool)
    returns (passes: seq<A.Pass>)
    requires U.Inv(c, u) && !u.retryPending && Same(u, a)
    ensures var u' := U.ReadLoop(c, u, rounds, notifyNow).0;
            Same(u', A.Passes(a, passes).0) && (u'.starved || forall p :: p in passes ==> A.DiligentPass(p))
    decreases |rounds|
  {
    hide U.Inv, U.Refill, A.OnePass, A.DiligentPass, A.Passes;
    var r := if |rounds| > 0 then rounds[0] else U.Round(0, None, None);
    var p := RoundIs(c, u, a, r);
    PassFirst(a, p, []);
    passes := [p] + [];
    var u' := U.Refill(c, u, r);
    U.RefillKeeps(c, u, r);
    if U.CanRead(c, u') {
      U.ReadKeeps(c, u', r.limit);
      if U.ReadCount(u', r.limit) > 0 && |rounds| > 0 {
        var pending := (notifyNow && u.sizeLeft > 0) || c.atOnce;
        U.ReadLoopKeeps(c, U.ReadFifo(u', r.limit), rounds[1..], pending);
        var rest := LoopIs(c, U.ReadFifo(u', r.limit), A.OnePass(a, p).0, rounds[1..], pending);
        PassFirst(a, p, rest);
        passes := [p] + rest;
      }
    }
  }

  lemma PassFirst(a: A.State, p: A.Pass, rest: seq<A.Pass>)
    ensures A.Passes(a, [p] + rest).0 == A.Passes(A.OnePass(a, p).0, rest).0
    ensures A.Passes(A.OnePass(a, p).0, []).0 == A.OnePass(a, p).0
  {
    assert ([p] + rest)[1..] == rest;
  }

  /** Every handler is a run of events of the adapter; as long as no allocation has failed, of diligent ones. */
  lemma HandlerIs(c: U.Config, u: U.State, a: A.State, e: U.Event) returns (events: seq<A.Event>)
    requires U.Inv(c, u) && Same(u, a)
    ensures Same(U.Handle(c, u, e), A.Run(a, events))
    ensures U.Handle(c, u, e).starved || AllDiligent(events)
  {
    hide U.Inv, A.Run, A.Diligent;
    events := [];
    EmptyRun(a);
    match e
    case Arrive(_) =>
    case RadioSend =>
    case RxTimeout(onLine) =>
      events := NotifyEvent(c, u, a, onLine);
    case Retry(answer) =>
      if u.retryPending { events := RetryEvent(c, u, a, answer); }
    case RxReady(rounds, onLine) =>
      if u.enabled {
        EnabledHasNoRetry(c, u);
        var passes := LoopIs(c, u, a, rounds, false);
        events := InterruptEvent(a, passes);
        U.ReadLoopKeeps(c, u, rounds, false);
        var (u', notifyNow) := U.ReadLoop(c, u, rounds, false);
        if notifyNow {
          var last := NotifyEvent(c, u', A.Run(a, events), onLine);
          RunConcat(a, events, last);
          NotifyStarves(c, u', onLine);
          events := events + last;
        }
      }
  }

  lemma InterruptEvent(a: A.State, passes: seq<A.Pass>) returns (events: seq<A.Event>)
    requires a.enabled
    ensures A.Run(a, events) == A.Passes(a, passes).0
    ensures (forall p :: p in passes ==> A.DiligentPass(p)) ==> AllDiligent(events)
  {
    events := [A.RxInterrupt(passes)];
    OneEvent(a, A.RxInterrupt(passes));
  }

  lemma EmptyRun(a: A.State)
    ensures A.Run(a, []) == a
  {}

  lemma EnabledHasNoRetry(c: U.Config, u: U.State)
    requires U.Inv(c, u) && u.enabled
    ensures !u.retryPending
  {}

  lemma NotifyStarves(c: U.Config, u: U.State, onLine: Option<BufId>)
    requires U.Inv(c, u)
    ensures u.starved ==> U.Notify(c, u, onLine).starved
  {
    U.NotifyKeeps(c, u, onLine);
  }

  lemma NotifyEvent(c: U.Config, u: U.State, a: A.State, onLine: Option<BufId>) returns (events: seq<A.Event>)
    requires U.Inv(c, u) && Same(u, a)
    ensures Same(U.Notify(c, u, onLine), A.Run(a, events))
    ensures AllDiligent(events)
  {
    var script := NotifyIs(c, u, a, onLine);
    events := [A.Timeout(script)];
    OneEvent(a, A.Timeout(script));
  }

  lemma RetryEvent(c: U.Config, u: U.State, a: A.State, answer: Option<BufId>) returns (events: seq<A.Event>)
    requires U.Inv(c, u) && Same(u, a)
    ensures var u' := U.OnDisabled(c, u.(retryPending := false), answer);
            Same(u', A.Run(a, events)) && AllDiligent(events)
  {
    var script := OnDisabledIs(c, u.(retryPending := false), a, answer);
    events := [A.Client(script)];
    OneEvent(a, A.Client(script));
  }

  /**
   Every run is a run of the adapter from its start; as long as no allocation fails, of diligent events, so that it
   drops nothing.
   */
  lemma {:induction false} RunIs(c: U.Config, first: BufId, events: seq<U.Event>) returns (es: seq<A.Event>)
    requires c.cap > 0
    ensures Same(U.Run(c, U.Start(c, first), events), A.Run(A.START, es))
    ensures U.Run(c, U.Start(c, first), events).starved || AllDiligent(es)
    decreases |events|
  {
    hide U.Inv, U.Handle, A.Run, A.Diligent;
    U.StartIsGood(c, first);
    if |events| == 0 {
      es := StartEvent(c, first);
    } else {
      var n := |events| - 1;
      var u := U.Run(c, U.Start(c, first), events[..n]);
      U.RunKeeps(c, U.Start(c, first), events[..n]);
      es := RunIs(c, first, events[..n]);
      var more := HandlerIs(c, u, A.Run(A.START, es), events[n]);
      U.HandleKeeps(c, u, events[n]);
      RunConcat(A.START, es, more);
      es := es + more;
    }
  }

  /** The client first enables reception. */
  lemma StartEvent(c: U.Config, first: BufId) returns (es: seq<A.Event>)
    requires c.cap > 0
    ensures Same(U.Start(c, first), A.Run(A.START, es)) && AllDiligent(es)
  {
    var script := A.Then(A.Enable(c.cap), A.Done);
    es := [A.Client(script)];
    OneEvent(A.START, A.Client(script));
    PerformThis(A.START, A.Enable(c.cap));
    assert A.NonEmpty(A.Done) && A.NonEmpty(script);
  }
}
