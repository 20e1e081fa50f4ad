/**
 The receive side of the adapter alone, under any client.  Its callbacks are made with the lock released, so a client
 may do anything from within them: answer a request, enable, or disable reception, whose own callbacks may do the same
 again. What the client does in a callback is a script, a finite tree of calls.
 */
module RxAdapter {
  import opened Bytes

  datatype Calls = Done | Then(first: Call, rest: Calls)

  /** `Disable` comes with what the client does in each of the release callbacks and in the final one. */
  datatype Call =
    | BufRsp(len: nat)
    | Enable(len: nat)
    | Disable(onReleased: Scripts, onDisabled: Calls)

  datatype Scripts = Quiet | Script(calls: Calls, more: Scripts)

  /** One `UART_RX_RDY` event: the bytes `[at, at + len)` of the current buffer. */
  datatype Segment = Segment(at: nat, len: nat)

  datatype State = State(
    hasBuf: bool, curr: nat, lastNotify: nat, sizeLeft: nat, hasNext: bool, nextLen: nat, enabled: bool,
    // history: the length the current buffer came with, and what was notified of it
    bufLen: nat, segments: seq<Segment>)

  const START := State(false, 0, 0, 0, false, 0, false, 0, [])

  // ---------------------------------------------------------------- the sections under the lock

  function Switched(s: State): State {
    s.(hasBuf := s.hasNext, curr := 0, lastNotify := 0, sizeLeft := s.nextLen, hasNext := false, nextLen := 0,
       bufLen := s.nextLen, segments := [])
  }

  function Answered(s: State, len: nat): State {
    if s.hasNext then s else s.(hasNext := true, nextLen := len)
  }

  function Enabled(s: State, len: nat): State {
    s.(hasBuf := false, curr := 0, sizeLeft := 0, hasNext := true, nextLen := len, enabled := true)
  }

  predicate Pending(s: State) {
    s.hasBuf && s.curr > s.lastNotify
  }

  function Notified(s: State): State
    requires Pending(s)
  {
    s.(lastNotify := s.curr, segments := s.segments + [Segment(s.lastNotify, s.curr - s.lastNotify)])
  }

  function Read(s: State, n: nat): State
    requires n <= s.sizeLeft
  {
    s.(curr := s.curr + n, sizeLeft := s.sizeLeft - n)
  }

  // ---------------------------------------------------------------- entry points and callbacks

  function Perform(s: State, cs: Calls): State
    decreases cs, 1, false, false
  {
    match cs
    case Done => s
    case Then(c, rest) => Perform(PerformOne(s, c), rest)
  }

  function PerformOne(s: State, c: Call): State
    decreases c, 0, false, false
  {
    match c
    case BufRsp(len) => Answered(s, len)
    case Enable(len) => Enabled(s, len)
    case Disable(onReleased, onDisabled) => Perform(ReleaseAll(s.(enabled := false), onReleased), onDisabled)
  }

  /** The loop of `rx_disable`. */
  function ReleaseAll(s: State, scripts: Scripts): State
    decreases scripts, 0, s.hasBuf, s.hasNext
  {
    if !s.hasBuf then s
    else
      match scripts
      case Quiet => ReleaseAll(Switched(s), Quiet)
      case Script(calls, more) => ReleaseAll(Perform(Switched(s), calls), more)
  }

  function Notify(s: State, onReady: Calls): State {
    if Pending(s) then Perform(Notified(s), onReady) else s
  }

  /** The client and the driver in one pass of the loop of `on_rx_ready`. */
  datatype Pass = Pass(onReady: Calls, onReleased: Calls, onRequest: Calls, room: nat)

  function Refill(s: State, p: Pass): State {
    var s1 := Notify(s, p.onReady);
    var s2 := Switched(s1);
    Perform(if s1.hasBuf then Perform(s2, p.onReleased) else s2, p.onRequest)
  }

  /** The pass drops what is waiting if there is still no room; otherwise it reads up to `room` bytes. */
  function OnePass(s: State, p: Pass): (State, bool) {
    var s' := if s.sizeLeft == 0 then Refill(s, p) else s;
    if s'.sizeLeft == 0 then (s', true) else (Read(s', Min(p.room, s'.sizeLeft)), false)
  }

  /** Pass after pass, and whether one of them dropped what was waiting. */
  function Passes(s: State, passes: seq<Pass>): (State, bool)
    decreases |passes|
  {
    if |passes| == 0 then (s, false)
    else
      var (s', dropped) := OnePass(s, passes[0]);
      var (s'', more) := Passes(s', passes[1..]);
      (s'', dropped || more)
  }

  datatype Event = Client(calls: Calls) | RxInterrupt(passes: seq<Pass>) | Timeout(onReady: Calls)

  /**
   The state after the event, and whether it dropped what was waiting.  Whether reception is enabled is asked once for
   an interrupt: its later passes go on even when a callback has disabled reception meanwhile.
   */
  function Handle(s: State, e: Event): (State, bool) {
    match e
    case Client(calls) => (Perform(s, calls), false)
    case RxInterrupt(passes) => if s.enabled then Passes(s, passes) else (s, false)
    case Timeout(onReady) => (Notify(s, onReady), false)
  }

  function Run(s: State, events: seq<Event>): State
    decreases |events|
  {
    if |events| == 0 then s else Handle(Run(s, events[..|events| - 1]), events[|events| - 1]).0
  }

  // ---------------------------------------------------------------- the invariant

  /** The segments follow each other without gap, start at 0 and end at `end`. */
  ghost predicate Tiles(segments: seq<Segment>, end: nat)
    decreases |segments|
  {
    if |segments| == 0 then end == 0
    else
      var last := segments[|segments| - 1];
      last.len > 0 && last.at + last.len == end && Tiles(segments[..|segments| - 1], last.at)
  }

  ghost predicate Inv(s: State) {
    && (s.hasBuf ==> s.lastNotify <= s.curr && s.curr + s.sizeLeft == s.bufLen && Tiles(s.segments, s.lastNotify))
    && (!s.hasBuf ==> s.sizeLeft == 0)
    && (!s.hasNext ==> s.nextLen == 0)
  }

  lemma NotifiedKeeps(s: State)
    requires Inv(s) && Pending(s)
    ensures Inv(Notified(s))
  {
    assert Notified(s).segments[..|s.segments|] == s.segments;
  }

  lemma {:induction false} PerformKeeps(s: State, cs: Calls)
    requires Inv(s)
    ensures Inv(Perform(s, cs))
    decreases cs, 1, false, false
  {
    match cs
    case Done =>
    case Then(c, rest) => PerformOneKeeps(s, c); PerformKeeps(PerformOne(s, c), rest);
  }

  lemma {:induction false} PerformOneKeeps(s: State, c: Call)
    requires Inv(s)
    ensures Inv(PerformOne(s, c))
    decreases c, 0, false, false
  {
    match c
    case BufRsp(_) =>
    case Enable(_) =>
    case Disable(onReleased, onDisabled) =>
      var off := s.(enabled := false);
      ReleaseAllKeeps(off, onReleased);
      PerformKeeps(ReleaseAll(off, onReleased), onDisabled);
  }

  /** The loop of `rx_disable` leaves no buffer, whatever the callbacks do. */
  lemma {:induction false} ReleaseAllKeeps(s: State, scripts: Scripts)
    requires Inv(s)
    ensures Inv(ReleaseAll(s, scripts)) && !ReleaseAll(s, scripts).hasBuf
    decreases scripts, 0, s.hasBuf, s.hasNext
  {
    if s.hasBuf {
      match scripts
      case Quiet => ReleaseAllKeeps(Switched(s), Quiet);
      case Script(calls, more) =>
        PerformKeeps(Switched(s), calls);
        ReleaseAllKeeps(Perform(Switched(s), calls), more);
    }
  }

  lemma NotifyKeeps(s: State, onReady: Calls)
    requires Inv(s)
    ensures Inv(Notify(s, onReady))
  {
    if Pending(s) {
      NotifiedKeeps(s);
      PerformKeeps(Notified(s), onReady);
    }
  }

  lemma RefillKeeps(s: State, p: Pass)
    requires Inv(s)
    ensures Inv(Refill(s, p))
  {
    var s1 := Notify(s, p.onReady);
    NotifyKeeps(s, p.onReady);
    var s2 := Switched(s1);
    PerformKeeps(s2, p.onReleased);
    PerformKeeps(if s1.hasBuf then Perform(s2, p.onReleased) else s2, p.onRequest);
  }

  lemma {:induction false} PassesKeep(s: State, passes: seq<Pass>)
    requires Inv(s)
    ensures Inv(Passes(s, passes).0)
    decreases |passes|
  {
    if |passes| > 0 {
      if s.sizeLeft == 0 { RefillKeeps(s, passes[0]); }
      PassesKeep(OnePass(s, passes[0]).0, passes[1..]);
    }
  }

  lemma HandleKeeps(s: State, e: Event)
    requires Inv(s)
    ensures Inv(Handle(s, e).0)
  {
    match e
    case Client(calls) => PerformKeeps(s, calls);
    case RxInterrupt(passes) => PassesKeep(s, passes);
    case Timeout(onReady) => NotifyKeeps(s, onReady);
  }

  lemma {:induction false} RunKeeps(s: State, events: seq<Event>)
    requires Inv(s)
    ensures Inv(Run(s, events))
    decreases |events|
  {
    var n := |events| - 1;
    if n >= 0 {
      RunKeeps(s, events[..n]);
      HandleKeeps(Run(s, events[..n]), events[n]);
    }
  }

  /** The segments notified of one buffer never overlap and come in order. */
  lemma {:induction false} TilesAreDisjoint(segments: seq<Segment>, end: nat, i: nat, j: nat)
    requires Tiles(segments, end) && i < j < |segments|
    ensures segments[i].at + segments[i].len <= segments[j].at && segments[j].at + segments[j].len <= end
    ensures j == i + 1 ==> segments[i].at + segments[i].len == segments[j].at
    decreases |segments|
  {
    var n := |segments| - 1;
    if j < n { TilesAreDisjoint(segments[..n], segments[n].at, i, j); }
    else if i < n - 1 { TilesAreDisjoint(segments[..n], segments[n].at, i, n - 1); }
  }

  /**
   In every reachable state, whatever the client does in its callbacks: positions are in order, read bytes and room
   add up to the buffer's length, and what was notified of the buffer is one prefix of it, cut into disjoint segments.
   */
  lemma PositionsAreSound(events: seq<Event>)
    ensures var s := Run(START, events);
            && (s.hasBuf ==> s.lastNotify <= s.curr <= s.bufLen && s.curr + s.sizeLeft == s.bufLen)
            && (s.hasBuf ==> Tiles(s.segments, s.lastNotify))
            && (s.hasBuf ==> forall i, j :: 0 <= i < j < |s.segments| ==>
                  s.segments[i].at + s.segments[i].len <= s.segments[j].at)
  {
    RunKeeps(START, events);
    var s := Run(START, events);
    if s.hasBuf {
      forall i, j | 0 <= i < j < |s.segments| ensures s.segments[i].at + s.segments[i].len <= s.segments[j].at {
        TilesAreDisjoint(s.segments, s.lastNotify, i, j);
      }
    }
  }

  // ---------------------------------------------------------------- dropped bytes

  /** The client only answers requests, with buffers that are not empty. */
  predicate OnlyAnswers(cs: Calls) {
    match cs
    case Done => true
    case Then(c, rest) => c.BufRsp? && c.len > 0 && OnlyAnswers(rest)
  }

  /** Answers change nothing but the next buffer, and that only if there is none. */
  lemma {:induction false} AnswersOnly(s: State, cs: Calls)
    requires OnlyAnswers(cs)
    ensures var s' := Perform(s, cs);
            && s' == s.(hasNext := s'.hasNext, nextLen := s'.nextLen)
            && (s.hasNext ==> s' == s)
            && (!s.hasNext && cs.Then? ==> s'.hasNext && s'.nextLen > 0)
            && (cs.Done? ==> s' == s)
    decreases cs
  {
    match cs
    case Done =>
    case Then(c, rest) => AnswersOnly(Answered(s, c.len), rest);
  }

  /** The client does nothing but answer, with buffers of any length; it neither enables nor disables reception. */
  predicate AllAnswers(cs: Calls) {
    match cs
    case Done => true
    case Then(c, rest) => c.BufRsp? && AllAnswers(rest)
  }

  lemma {:induction false} OnlyAnswersAreAnswers(cs: Calls)
    requires OnlyAnswers(cs)
    ensures AllAnswers(cs)
    decreases cs
  {
    if cs.Then? { OnlyAnswersAreAnswers(cs.rest); }
  }

  /** Where there is no buffer no call makes one current: only the switch does. */
  lemma {:induction false} NoBufferAppears(s: State, cs: Calls)
    requires Inv(s) && !s.hasBuf
    ensures !Perform(s, cs).hasBuf
    decreases cs
  {
    match cs
    case Done =>
    case Then(c, rest) =>
      PerformOneKeeps(s, c);
      match c {
        case BufRsp(_) =>
        case Enable(_) =>
        case Disable(onReleased, onDisabled) =>
          assert ReleaseAll(s.(enabled := false), onReleased) == s.(enabled := false);
          NoBufferAppears(s.(enabled := false), onDisabled);
      }
      NoBufferAppears(PerformOne(s, c), rest);
  }

  /** Enabling and disabling both leave no buffer. */
  lemma NoAnswerNoBuffer(s: State, c: Call)
    requires Inv(s) && !c.BufRsp?
    ensures !PerformOne(s, c).hasBuf
  {
    if c.Disable? {
      var off := s.(enabled := false);
      ReleaseAllKeeps(off, c.onReleased);
      NoBufferAppears(ReleaseAll(off, c.onReleased), c.onDisabled);
    }
  }

  /** A callback leaves the room as it is if it only answers, and leaves none otherwise. */
  lemma {:induction false} RoomAfter(s: State, cs: Calls)
    requires Inv(s)
    ensures Inv(Perform(s, cs))
    ensures Perform(s, cs).sizeLeft == if AllAnswers(cs) then s.sizeLeft else 0
    decreases cs
  {
    PerformKeeps(s, cs);
    match cs
    case Done =>
    case Then(c, rest) =>
      PerformOneKeeps(s, c);
      if c.BufRsp? {
        RoomAfter(PerformOne(s, c), rest);
      } else {
        NoAnswerNoBuffer(s, c);
        NoBufferAppears(PerformOne(s, c), rest);
      }
  }

  /**
   Exactly when a pass drops bytes, for every client: the buffer was used up, and the switch found no next buffer, or an
   empty one, or a callback after the switch enabled or disabled reception and so gave the new buffer away.
   */
  lemma DropsIff(s: State, p: Pass)
    requires Inv(s)
    ensures var s1 := Notify(s, p.onReady);
            OnePass(s, p).1 <==>
            s.sizeLeft == 0 && (s1.nextLen == 0 || (s1.hasBuf && !AllAnswers(p.onReleased)) || !AllAnswers(p.onRequest))
  {
    NotifyKeeps(s, p.onReady);
    var s1 := Notify(s, p.onReady);
    RoomAfter(Switched(s1), p.onReleased);
    RoomAfter(if s1.hasBuf then Perform(Switched(s1), p.onReleased) else Switched(s1), p.onRequest);
  }

  /**
   The calls end with a next buffer in place, if there is one beforehand where `have` says so: the last time the client
   disables or enables reception it enables it, with a buffer that is not empty, in whatever callback that is.  Answers
   and what it does in the release callbacks are free.
   */
  predicate Stocked(cs: Calls, have: bool) {
    match cs
    case Done => have
    case Then(c, rest) =>
      Stocked(rest, match c
                    case BufRsp(_) => have
                    case Enable(len) => len > 0
                    case Disable(_, onDisabled) => Stocked(onDisabled, false))
  }

  lemma {:induction false} StockedKeeps(s: State, cs: Calls, have: bool)
    requires Inv(s) && (have ==> s.nextLen > 0) && Stocked(cs, have)
    ensures Inv(Perform(s, cs)) && Perform(s, cs).nextLen > 0
    decreases cs
  {
    match cs
    case Done =>
    case Then(c, rest) =>
      PerformOneKeeps(s, c);
      var have' := match c
                   case BufRsp(_) => have
                   case Enable(len) => len > 0
                   case Disable(_, onDisabled) => Stocked(onDisabled, false);
      if c.Disable? && have' {
        ReleaseAllKeeps(s.(enabled := false), c.onReleased);
        StockedKeeps(ReleaseAll(s.(enabled := false), c.onReleased), c.onDisabled, false);
      }
      StockedKeeps(PerformOne(s, c), rest, have');
  }

  /** Reception is never enabled with an empty buffer, in no call however deep. */
  predicate NonEmpty(cs: Calls) {
    match cs
    case Done => true
    case Then(c, rest) => NonEmptyCall(c) && NonEmpty(rest)
  }

  predicate NonEmptyCall(c: Call) {
    match c
    case BufRsp(_) => true
    case Enable(len) => len > 0
    case Disable(onReleased, onDisabled) => NonEmptyScripts(onReleased) && NonEmpty(onDisabled)
  }

  predicate NonEmptyScripts(scripts: Scripts) {
    match scripts
    case Quiet => true
    case Script(calls, more) => NonEmpty(calls) && NonEmptyScripts(more)
  }

  /** There is a next buffer whenever reception is enabled. */
  predicate Fed(s: State) {
    s.enabled ==> s.nextLen > 0
  }

  /** Reception that is off stays off as long as there is a buffer. */
  lemma {:induction false} OffWhileHeld(s: State, cs: Calls)
    requires Inv(s) && !s.enabled
    ensures Perform(s, cs).hasBuf ==> !Perform(s, cs).enabled
    decreases cs
  {
    match cs
    case Done =>
    case Then(c, rest) =>
      PerformOneKeeps(s, c);
      if c.BufRsp? {
        OffWhileHeld(PerformOne(s, c), rest);
      } else {
        NoAnswerNoBuffer(s, c);
        NoBufferAppears(PerformOne(s, c), rest);
      }
  }

  lemma {:induction false} FedKeeps(s: State, cs: Calls)
    requires Inv(s) && Fed(s) && NonEmpty(cs)
    ensures Inv(Perform(s, cs)) && Fed(Perform(s, cs))
    decreases cs, 1, false, false
  {
    match cs
    case Done =>
    case Then(c, rest) =>
      PerformOneKeeps(s, c);
      FedKeepsOne(s, c);
      FedKeeps(PerformOne(s, c), rest);
  }

  lemma {:induction false} FedKeepsOne(s: State, c: Call)
    requires Inv(s) && Fed(s) && NonEmptyCall(c)
    ensures Fed(PerformOne(s, c))
    decreases c, 0, false, false
  {
    match c
    case BufRsp(_) =>
    case Enable(_) =>
    case Disable(onReleased, onDisabled) =>
      var off := s.(enabled := false);
      ReleaseAllKeeps(off, onReleased);
      FedKeepsReleases(off, onReleased);
      FedKeeps(ReleaseAll(off, onReleased), onDisabled);
  }

  lemma {:induction false} FedKeepsReleases(s: State, scripts: Scripts)
    requires Inv(s) && Fed(s) && (s.hasBuf ==> !s.enabled) && NonEmptyScripts(scripts)
    ensures Fed(ReleaseAll(s, scripts))
    decreases scripts, 0, s.hasBuf, s.hasNext
  {
    if s.hasBuf {
      match scripts
      case Quiet => FedKeepsReleases(Switched(s), Quiet);
      case Script(calls, more) =>
        FedKeeps(Switched(s), calls);
        OffWhileHeld(Switched(s), calls);
        FedKeepsReleases(Perform(Switched(s), calls), more);
    }
  }

  /**
   What the client of this repository does at the end of a line: disable, and enable with a fresh buffer; or, when
   there is no memory, disable and enable later from its work queue.
   */
  lemma LineEndRestocks(len: nat)
    requires len > 0
    ensures var atOnce := Then(Disable(Quiet, Then(Enable(len), Done)), Done); Stocked(atOnce, true) && NonEmpty(atOnce)
    ensures NonEmpty(Then(Disable(Quiet, Done), Done)) && NonEmpty(Then(Enable(len), Done))
  {
    assert Stocked(Done, true) && NonEmpty(Done) && NonEmptyScripts(Quiet);
    assert NonEmpty(Then(Enable(len), Done));
    assert NonEmptyCall(Disable(Quiet, Then(Enable(len), Done))) && NonEmptyCall(Disable(Quiet, Done));
  }

  /**
   In a pass the request is answered, the ready callback leaves a next buffer for the switch that follows it, and the
   two callbacks between that switch and the read do nothing but answer, as `DropsIff` demands.
   */
  predicate DiligentPass(p: Pass) {
    Stocked(p.onReady, true) && OnlyAnswers(p.onReleased) && OnlyAnswers(p.onRequest) && p.onRequest.Then?
  }

  /**
   Every request is answered.  Outside the passes the client disables and enables as it likes, in callbacks or later, as
   long as it never enables with an empty buffer.
   */
  predicate Diligent(e: Event) {
    match e
    case Client(calls) => NonEmpty(calls)
    case RxInterrupt(passes) => forall p :: p in passes ==> DiligentPass(p)
    case Timeout(onReady) => NonEmpty(onReady)
  }

  lemma PassDropsNothing(s: State, p: Pass)
    requires Inv(s) && s.nextLen > 0 && DiligentPass(p)
    ensures Inv(OnePass(s, p).0) && !OnePass(s, p).1 && OnePass(s, p).0.nextLen > 0
  {
    DropsIff(s, p);
    OnlyAnswersAreAnswers(p.onReleased);
    OnlyAnswersAreAnswers(p.onRequest);
    if s.sizeLeft == 0 {
      RefillKeeps(s, p);
      if Pending(s) {
        NotifiedKeeps(s);
        StockedKeeps(Notified(s), p.onReady, true);
      }
      var s1 := Notify(s, p.onReady);
      AnswersOnly(Switched(s1), p.onReleased);
      var s3 := if s1.hasBuf then Perform(Switched(s1), p.onReleased) else Switched(s1);
      AnswersOnly(s3, p.onRequest);
    }
  }

  lemma {:induction false} PassesDropNothing(s: State, passes: seq<Pass>)
    requires Inv(s) && s.nextLen > 0 && forall p :: p in passes ==> DiligentPass(p)
    ensures Inv(Passes(s, passes).0) && !Passes(s, passes).1 && Passes(s, passes).0.nextLen > 0
    decreases |passes|
  {
    hide Inv, OnePass, DiligentPass;
    if |passes| > 0 {
      PassDropsNothing(s, passes[0]);
      PassesDropNothing(OnePass(s, passes[0]).0, passes[1..]);
    }
  }

  /** Whenever no handler is under way and reception is enabled there is a next buffer. */
  lemma DiligentStep(s: State, e: Event)
    requires Inv(s) && Fed(s) && Diligent(e)
    ensures !Handle(s, e).1 && Inv(Handle(s, e).0) && Fed(Handle(s, e).0)
  {
    match e
    case Client(calls) => FedKeeps(s, calls);
    case Timeout(onReady) =>
      if Pending(s) {
        NotifiedKeeps(s);
        FedKeeps(Notified(s), onReady);
      }
    case RxInterrupt(passes) => if s.enabled { PassesDropNothing(s, passes); }
  }

  lemma {:induction false} DiligentRun(s: State, events: seq<Event>)
    requires Inv(s) && Fed(s) && forall e :: e in events ==> Diligent(e)
    ensures Inv(Run(s, events)) && Fed(Run(s, events))
    decreases |events|
  {
    hide Inv, Fed, Handle, Diligent;
    var n := |events| - 1;
    if n >= 0 {
      DiligentRun(s, events[..n]);
      DiligentStep(Run(s, events[..n]), events[n]);
    }
  }

  /**
   If every request is answered, no event of any run drops a byte, whatever the client enables and disables, and when.
   */
  lemma NothingDropped(events: seq<Event>, k: nat)
    requires k < |events| && forall e :: e in events ==> Diligent(e)
    ensures !Handle(Run(START, events[..k]), events[k]).1
  {
    DiligentRun(START, events[..k]);
    DiligentStep(Run(START, events[..k]), events[k]);
  }

  /** An interrupt reports a drop if and only if one of its passes drops. */
  lemma {:induction false} DropIsReported(s: State, passes: seq<Pass>)
    ensures Passes(s, passes).1 <==>
            exists i :: 0 <= i < |passes| && OnePass(Passes(s, passes[..i]).0, passes[i]).1
    decreases |passes|
  {
    if |passes| > 0 {
      var s', rest := OnePass(s, passes[0]).0, passes[1..];
      DropIsReported(s', rest);
      assert passes[..0] == [];
      forall i | 0 <= i < |rest|
        ensures Passes(s', rest[..i]).0 == Passes(s, passes[..i + 1]).0 && rest[i] == passes[i + 1]
      {
        assert passes[..i + 1][1..] == rest[..i];
      }
      if i :| 0 <= i < |rest| && OnePass(Passes(s', rest[..i]).0, rest[i]).1 {
        assert OnePass(Passes(s, passes[..i + 1]).0, passes[i + 1]).1;
      }
      if j :| 0 < j < |passes| && OnePass(Passes(s, passes[..j]).0, passes[j]).1 {
        assert OnePass(Passes(s', rest[..j - 1]).0, rest[j - 1]).1;
      }
    }
  }

  /** Enabling does enable: the next interrupt reads into the buffer that came with it, from its start. */
  lemma EnabledReceives(s: State, len: nat, p: Pass)
    requires Inv(s) && len > 0 && DiligentPass(p)
    ensures var s' := Handle(Perform(s, Then(Enable(len), Done)), RxInterrupt([p])).0;
            s'.enabled && s'.hasBuf && s'.bufLen == len && s'.curr == Min(p.room, len) && s'.lastNotify == 0
  {
    var on := Enabled(s, len);
    assert Perform(s, Then(Enable(len), Done)) == on;
    assert Passes(on, [p]).0 == OnePass(on, p).0 by { assert [p][1..] == []; }
    assert Notify(on, p.onReady) == on;
    AnswersOnly(Switched(on), p.onRequest);
  }

  /** A client that disables reception in the release callback makes the pass drop, although a next buffer was found. */
  lemma DisablingDrops(s: State, onReleased: Scripts, onDisabled: Calls, onRequest: Calls, room: nat)
    requires Inv(s) && s.sizeLeft == 0 && s.hasBuf && s.curr == s.lastNotify && s.nextLen > 0
    ensures OnePass(s, Pass(Done, Then(Disable(onReleased, onDisabled), Done), onRequest, room)).1
  {
    DropsIff(s, Pass(Done, Then(Disable(onReleased, onDisabled), Done), onRequest, room));
  }
}
