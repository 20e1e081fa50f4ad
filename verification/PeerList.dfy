/**
 The list of ranged peers: peers are added once, each measurement restarts a peer's timeout, a timer ages all peers and
 removes the expired ones, and one listed peer is remembered as the closest.  Handlers are atomic.
 */
module PeerList {
  import opened Bytes

  /** `Other` stands for what an uninitialised result may hold. */
  datatype Mode = Rtt | Mcpd | Other

  datatype Result = Result(mode: Mode, best: real)

  /** `struct peer_entry`; `id` is the address of the block it is in. */
  datatype Entry = Entry(id: nat, addr: nat, result: Result, timeout: nat)

  const STEP := 500
  const INIT := 10000
  /** The ticks that a peer outlives its last measurement by, and one more. */
  const LIFETIME := 20

  /** `closest` holds the address of a block, `heap` the allocated blocks. */
  datatype State = State(peers: seq<Entry>, closest: Option<nat>, heap: set<nat>)

  const START := State([], None, {})

  // ---------------------------------------------------------------- the closest peer

  /** `mcpd_min_peer_result`. */
  function McpdMin(a: Option<Entry>, b: Option<Entry>): Option<Entry> {
    if a.None? && b.None? then None
    else if a.None? then (if b.value.result.mode.Mcpd? then b else None)
    else if b.None? then (if a.value.result.mode.Mcpd? then a else None)
    else if a.value.result.mode.Rtt? && b.value.result.mode.Rtt? then None
    else if a.value.result.mode.Rtt? && b.value.result.mode.Mcpd? then b
    else if a.value.result.mode.Mcpd? && b.value.result.mode.Rtt? then a
    else if a.value.result.best > b.value.result.best then a
    else b
  }

  /** With one entry missing it does not matter which: the other one is returned if it has an MCPD measurement. */
  lemma McpdMinOfOne(a: Option<Entry>)
    ensures McpdMin(a, None) == McpdMin(None, a) == if a.Some? && a.value.result.mode == Mcpd then a else None
  {}

  /** The candidate of `peer_find_closest` after the first `n` entries; it starts with the head. */
  function Candidate(peers: seq<Entry>, n: nat): (r: Option<Entry>)
    requires 0 < |peers| && n <= |peers|
    ensures r.Some? ==> r.value in peers
  {
    if n == 0 then Some(peers[0]) else McpdMin(Candidate(peers, n - 1), Some(peers[n - 1]))
  }

  function FindClosest(peers: seq<Entry>): (r: Option<Entry>)
    ensures r.Some? ==> r.value in peers
  {
    if |peers| == 0 then None else Candidate(peers, |peers|)
  }

  /** Every entry has had a measurement of one of the two kinds. */
  predicate Measured(peers: seq<Entry>) {
    forall e :: e in peers ==> !e.result.mode.Other?
  }

  /** `r` is the last of the entries with the greatest distance among the MCPD ones in peers[..n], if there are any. */
  ghost predicate IsFarthest(peers: seq<Entry>, n: nat, r: Option<Entry>)
    requires n <= |peers|
  {
    match r
    case None => forall j :: 0 <= j < n ==> !peers[j].result.mode.Mcpd?
    case Some(e) => exists k :: 0 <= k < n && IsLastFarthest(peers, n, e, k)
  }

  ghost predicate IsLastFarthest(peers: seq<Entry>, n: nat, e: Entry, k: nat)
    requires n <= |peers| && k < n
  {
    && peers[k] == e && e.result.mode.Mcpd?
    && (forall j :: 0 <= j <= k && peers[j].result.mode.Mcpd? ==> peers[j].result.best <= e.result.best)
    && (forall j :: k < j < n && peers[j].result.mode.Mcpd? ==> peers[j].result.best < e.result.best)
  }

  lemma {:induction false} CandidateIsFarthest(peers: seq<Entry>, n: nat)
    requires 0 < n <= |peers| && Measured(peers)
    ensures IsFarthest(peers, n, Candidate(peers, n))
  {
    var b := peers[n - 1];
    assert b in peers;
    if n == 1 {
      assert Candidate(peers, 0) == Some(peers[0]);
      if b.result.mode.Mcpd? { assert IsLastFarthest(peers, 1, b, 0); }
    } else {
      CandidateIsFarthest(peers, n - 1);
      var a := Candidate(peers, n - 1);
      if a.Some? {
        var k :| 0 <= k < n - 1 && IsLastFarthest(peers, n - 1, a.value, k);
        if b.result.mode.Mcpd? && a.value.result.best <= b.result.best {
          assert IsLastFarthest(peers, n, b, n - 1);
        } else {
          assert IsLastFarthest(peers, n, a.value, k);
        }
      } else if b.result.mode.Mcpd? {
        assert IsLastFarthest(peers, n, b, n - 1);
      }
    }
  }

  /**
   The code that is to find the closest peer finds the farthest one, the last of equals; none if and only if no MCPD
   entry is listed.
   */
  lemma ClosestIsFarthest(peers: seq<Entry>)
    requires Measured(peers)
    ensures IsFarthest(peers, |peers|, FindClosest(peers))
  {
    if |peers| > 0 { CandidateIsFarthest(peers, |peers|); }
  }

  /**
   An entry that was added and not measured yet can take the place of a measured one: its result is not initialised.
   */
  lemma UnmeasuredPeerWins(a: Entry, b: Entry)
    requires a.result.mode.Mcpd? && b.result.mode.Other? && a.result.best <= b.result.best
    ensures FindClosest([a, b]) == Some(b) && !IsFarthest([a, b], 2, Some(b))
  {
    assert Candidate([a, b], 1) == McpdMin(Candidate([a, b], 0), Some(a)) == Some(a);
  }

  predicate IsNearest(peers: seq<Entry>, e: Entry) {
    forall p :: p in peers && p.result.mode.Mcpd? ==> e.result.best <= p.result.best
  }

  /**
   Where the search finds the farthest one, that is also the closest exactly when all MCPD entries are equally far.
   */
  lemma ClosestVerdict(peers: seq<Entry>)
    requires FindClosest(peers).Some? && IsFarthest(peers, |peers|, FindClosest(peers))
    ensures IsNearest(peers, FindClosest(peers).value) <==>
            forall p, q :: p in peers && q in peers && p.result.mode.Mcpd? && q.result.mode.Mcpd? ==>
              p.result.best == q.result.best
  {
    var e := FindClosest(peers).value;
    assert e.result.mode.Mcpd?;
    forall p | p in peers && p.result.mode.Mcpd? ensures p.result.best <= e.result.best {
      var k :| 0 <= k < |peers| && IsLastFarthest(peers, |peers|, e, k);
      var j :| 0 <= j < |peers| && peers[j] == p;
    }
  }

  // ---------------------------------------------------------------- looking up

  /** `peer_find`: the index of the first entry with this address. */
  function FindAddr(peers: seq<Entry>, addr: nat): (r: Option<nat>)
    ensures r.Some? ==> r.value < |peers| && peers[r.value].addr == addr
    ensures r.None? ==> forall e :: e in peers ==> e.addr != addr
  {
    if |peers| == 0 then None
    else if peers[0].addr == addr then Some(0)
    else
      var r := FindAddr(peers[1..], addr);
      if r.Some? then Some(r.value + 1) else None
  }

  /**
   The entry at a block's address; a pointer to anything else is not followed by the code, as `ClosestIsLive` shows.
   */
  function Deref(peers: seq<Entry>, p: Option<nat>): (r: Option<Entry>)
    ensures r.Some? ==> r.value in peers && p == Some(r.value.id)
  {
    if p.None? || |peers| == 0 then None
    else if peers[0].id == p.value then Some(peers[0])
    else Deref(peers[1..], p)
  }

  function IdOf(e: Option<Entry>): Option<nat> {
    if e.Some? then Some(e.value.id) else None
  }

  // ---------------------------------------------------------------- handlers

  /** `peer_supported_add`; `answer` is what the heap gives, `junk` what it held. */
  function AddPeer(s: State, addr: nat, answer: Option<nat>, junk: Result): (State, bool) {
    if FindAddr(s.peers, addr).Some? then (s, true)
    else if answer.None? || answer.value in s.heap then (s, false)
    else (s.(peers := s.peers + [Entry(answer.value, addr, junk, INIT)], heap := s.heap + {answer.value}), true)
  }

  /** One result taken from the queue by `peer_thread`. */
  function TakeResult(s: State, addr: nat, r: Result): State {
    var i := FindAddr(s.peers, addr);
    if i.None? then s
    else
      var e := s.peers[i.value].(result := r, timeout := INIT);
      var peers := s.peers[i.value := e];
      s.(peers := peers, closest := IdOf(McpdMin(Deref(peers, s.closest), Some(e))))
  }

  /**
   Adding a peer succeeds if and only if it is listed afterwards; it changes nothing if the peer is listed already or
   there is no memory, and otherwise appends it with its full timeout.
   */
  lemma AddListsPeer(s: State, addr: nat, answer: Option<nat>, junk: Result)
    ensures var (t, ok) := AddPeer(s, addr, answer, junk);
            && (ok <==> exists i :: 0 <= i < |t.peers| && t.peers[i].addr == addr)
            && ((exists i :: 0 <= i < |s.peers| && s.peers[i].addr == addr) || !ok ==> t == s)
            && (t != s ==>
                  && answer.Some? && answer.value !in s.heap && t.heap == s.heap + {answer.value}
                  && t.peers == s.peers + [Entry(answer.value, addr, junk, 10000)] && t.closest == s.closest)
            && (ok || answer.None? || answer.value in s.heap)
  {
    var (t, ok) := AddPeer(s, addr, answer, junk);
    if FindAddr(s.peers, addr).Some? {
      assert s.peers[FindAddr(s.peers, addr).value].addr == addr;
    } else {
      forall i | 0 <= i < |s.peers| ensures s.peers[i].addr != addr { assert s.peers[i] in s.peers; }
      if ok { assert t.peers[|s.peers|].addr == addr; }
    }
  }

  /** A measurement replaces the peer's result and restarts its timeout, and touches no other peer and no block. */
  lemma ResultIsTaken(s: State, addr: nat, r: Result)
    ensures var t, i := TakeResult(s, addr, r), FindAddr(s.peers, addr);
            && t.heap == s.heap && |t.peers| == |s.peers| && (i.None? ==> t == s)
            && (forall j :: 0 <= j < |s.peers| && i != Some(j) ==> t.peers[j] == s.peers[j])
            && (i.Some? ==>
                  var p := t.peers[i.value];
                  p.result == r && p.timeout == 10000 && p.addr == addr && p.id == s.peers[i.value].id)
  {}

  /**
   And the peer that is remembered afterwards: the one measured, if it is an MCPD measurement and at least as far as
   the one remembered, or that one has no MCPD measurement; the one remembered, if that is farther, or if it alone has
   an MCPD measurement; none, if neither has.
   */
  lemma ResultDecidesClosest(s: State, addr: nat, r: Result)
    requires FindAddr(s.peers, addr).Some? && !r.mode.Other?
    ensures var t := TakeResult(s, addr, r);
            var id := t.peers[FindAddr(s.peers, addr).value].id;
            var was := Deref(t.peers, s.closest);
            && (was.Some? && was.value.result.mode.Other? ==>
                  t.closest == if was.value.result.best > r.best then s.closest else Some(id))
            && (was.None? || was.value.result.mode.Rtt? ==> t.closest == if r.mode.Mcpd? then Some(id) else None)
            && (was.Some? && was.value.result.mode.Mcpd? ==>
                  t.closest == if r.mode.Rtt? || was.value.result.best > r.best then s.closest else Some(id))
  {}

  predicate Expired(e: Entry) {
    e.timeout <= STEP
  }

  function Aged(e: Entry): Entry {
    if Expired(e) then e else e.(timeout := e.timeout - STEP)
  }

  /**
   The loop of `timeout_handler` with `rest` ahead of it and `front` already visited and still listed.  The removal
   names no predecessor, which tells `sys_slist_remove` that the node is the head: the list goes on with the next node.
   */
  function Sweep(front: seq<Entry>, rest: seq<Entry>, closest: Option<nat>, heap: set<nat>): State
    decreases |rest|
  {
    if |rest| == 0 then State(front, closest, heap)
    else if !Expired(rest[0]) then Sweep(front + [Aged(rest[0])], rest[1..], closest, heap)
    else Sweep([], rest[1..], IdOf(FindClosest(rest[1..])), heap - {rest[0].id})
  }

  function Tick(s: State): State {
    Sweep([], s.peers, s.closest, s.heap)
  }

  datatype Event = Added(addr: nat, answer: Option<nat>, junk: Result) | Measurement(addr: nat, result: Result) | Timer

  function Handle(s: State, e: Event): State {
    match e
    case Added(addr, answer, junk) => AddPeer(s, addr, answer, junk).0
    case Measurement(addr, r) => TakeResult(s, addr, r)
    case Timer => Tick(s)
  }

  function Run(s: State, events: seq<Event>): State
    decreases |events|
  {
    if |events| == 0 then s else Handle(Run(s, events[..|events| - 1]), events[|events| - 1])
  }

  // ---------------------------------------------------------------- what a tick does

  /** The last expired entry, if any, is the one before `c`. */
  ghost predicate IsCut(peers: seq<Entry>, c: nat) {
    c <= |peers| && (c > 0 ==> Expired(peers[c - 1])) && forall i :: c <= i < |peers| ==> !Expired(peers[i])
  }

  /** Where the list is cut by a tick. */
  function Cut(peers: seq<Entry>): (c: nat)
    ensures IsCut(peers, c)
    decreases |peers|
  {
    if |peers| == 0 then 0
    else if Expired(peers[|peers| - 1]) then |peers|
    else Cut(peers[..|peers| - 1])
  }

  function AllAged(peers: seq<Entry>): (r: seq<Entry>)
    ensures |r| == |peers|
  {
    seq(|peers|, i requires 0 <= i < |peers| => Aged(peers[i]))
  }

  function ExpiredIds(peers: seq<Entry>): set<nat> {
    set e | e in peers && Expired(e) :: e.id
  }

  lemma ExpiredIdsSplit(peers: seq<Entry>)
    requires |peers| > 0
    ensures ExpiredIds(peers) == ExpiredIds(peers[1..]) + if Expired(peers[0]) then {peers[0].id} else {}
  {
    assert forall e :: e in peers <==> e == peers[0] || e in peers[1..];
  }

  lemma {:induction false} SweepFrees(front: seq<Entry>, rest: seq<Entry>, closest: Option<nat>, heap: set<nat>)
    ensures Sweep(front, rest, closest, heap).heap == heap - ExpiredIds(rest)
    decreases |rest|
  {
    hide FindClosest, ExpiredIds;
    if |rest| > 0 {
      ExpiredIdsSplit(rest);
      if !Expired(rest[0]) {
        SweepFrees(front + [Aged(rest[0])], rest[1..], closest, heap);
      } else {
        SweepFrees([], rest[1..], IdOf(FindClosest(rest[1..])), heap - {rest[0].id});
      }
    } else {
      assert ExpiredIds(rest) == {} by { NobodyExpired(); }
    }
  }

  lemma NobodyExpired()
    ensures ExpiredIds([]) == {}
  {}

  lemma {:induction false} SweepIs(front: seq<Entry>, rest: seq<Entry>, closest: Option<nat>, heap: set<nat>, c: nat)
    requires IsCut(rest, c)
    ensures var s := Sweep(front, rest, closest, heap);
            && s.peers == (if c == 0 then front + AllAged(rest) else AllAged(rest[c..]))
            && s.closest == (if c == 0 then closest else IdOf(FindClosest(rest[c..])))
    decreases |rest|
  {
    hide FindClosest, IsCut, AllAged, Aged;
    if |rest| > 0 {
      CutSplit(rest, c);
      if !Expired(rest[0]) {
        SweepIs(front + [Aged(rest[0])], rest[1..], closest, heap, if c == 0 then 0 else c - 1);
        AllAgedSplit(rest);
      } else {
        SweepIs([], rest[1..], IdOf(FindClosest(rest[1..])), heap - {rest[0].id}, c - 1);
        assert rest[1..][0..] == rest[1..];
      }
    } else {
      EmptyCut(c);
    }
  }

  lemma CutSplit(peers: seq<Entry>, c: nat)
    requires |peers| > 0 && IsCut(peers, c)
    ensures c == 0 ==> !Expired(peers[0]) && IsCut(peers[1..], 0)
    ensures c > 0 ==> c <= |peers| && peers[1..][c - 1..] == peers[c..] && IsCut(peers[1..], c - 1)
    ensures c == 1 ==> Expired(peers[0])
  {}

  lemma EmptyCut(c: nat)
    requires IsCut([], c)
    ensures c == 0 && AllAged([]) == []
  {}

  lemma AllAgedSplit(peers: seq<Entry>)
    requires |peers| > 0
    ensures AllAged(peers) == [Aged(peers[0])] + AllAged(peers[1..])
  {}

  /** A tick keeps, one step older, what stands behind the last expired entry, and frees exactly the expired ones. */
  lemma TickIs(s: State)
    ensures var c := Cut(s.peers);
            && Tick(s).peers == AllAged(s.peers[c..])
            && Tick(s).closest == (if c == 0 then s.closest else IdOf(FindClosest(s.peers[c..])))
            && Tick(s).heap == s.heap - ExpiredIds(s.peers)
  {
    SweepIs([], s.peers, s.closest, s.heap, Cut(s.peers));
    SweepFrees([], s.peers, s.closest, s.heap);
    assert s.peers[0..] == s.peers;
  }

  /** No entry that is to stay stands before one that expires. */
  predicate Orderly(peers: seq<Entry>) {
    forall i, j :: 0 <= i < j < |peers| && Expired(peers[j]) ==> Expired(peers[i])
  }

  predicate Listed(s: State, addr: nat) {
    exists i :: 0 <= i < |s.peers| && s.peers[i].addr == addr
  }

  // ---------------------------------------------------------------- the invariant

  ghost predicate Inv(s: State) {
    && (forall i, j :: 0 <= i < j < |s.peers| ==> s.peers[i].addr != s.peers[j].addr && s.peers[i].id != s.peers[j].id)
    && (forall i :: 0 <= i < |s.peers| ==> s.peers[i].id in s.heap && s.peers[i].timeout <= INIT)
    && (s.closest.Some? ==> exists i :: 0 <= i < |s.peers| && s.peers[i].id == s.closest.value)
  }

  /** A tick lists exactly the entries behind the cut. */
  lemma TickLists(s: State, i: nat)
    requires Inv(s) && i < |s.peers|
    ensures Listed(Tick(s), s.peers[i].addr) <==> i >= Cut(s.peers)
  {
    TickIs(s);
    hide Tick, Cut;
    var c, t := Cut(s.peers), Tick(s);
    if i >= c { assert t.peers[i - c].addr == s.peers[i].addr; }
    forall k | 0 <= k < |t.peers| && t.peers[k].addr == s.peers[i].addr ensures i == k + c {}
  }

  /** A tick removes every expired entry; it removes no other one if and only if the list is orderly. */
  lemma TickVerdict(s: State)
    requires Inv(s)
    ensures forall i :: 0 <= i < |s.peers| && Expired(s.peers[i]) ==> !Listed(Tick(s), s.peers[i].addr)
    ensures (forall i :: 0 <= i < |s.peers| && !Expired(s.peers[i]) ==> Listed(Tick(s), s.peers[i].addr)) <==>
            Orderly(s.peers)
  {
    forall i | 0 <= i < |s.peers| ensures Listed(Tick(s), s.peers[i].addr) <==> i >= Cut(s.peers) { TickLists(s, i); }
    hide Inv, Tick, Listed;
    if !Orderly(s.peers) {
      var i, j :| 0 <= i < j < |s.peers| && Expired(s.peers[j]) && !Expired(s.peers[i]);
      assert i < Cut(s.peers);
    }
  }

  lemma TickKeeps(s: State)
    requires Inv(s)
    ensures Inv(Tick(s))
  {
    TickIs(s);
    hide Cut, FindClosest, Tick;
    var c, t := Cut(s.peers), Tick(s);
    forall i | 0 <= i < |t.peers| ensures t.peers[i].id in t.heap {
      assert t.peers[i].id == s.peers[i + c].id;
    }
    if c > 0 && t.closest.Some? {
      var e := FindClosest(s.peers[c..]).value;
      var i :| 0 <= i < |s.peers[c..]| && s.peers[c..][i] == e;
      assert t.peers[i].id == e.id;
    } else if t.closest.Some? {
      var i :| 0 <= i < |s.peers| && s.peers[i].id == s.closest.value;
      assert t.peers[i].id == s.peers[i].id;
    }
  }

  lemma ResultKeeps(s: State, addr: nat, r: Result)
    requires Inv(s)
    ensures Inv(TakeResult(s, addr, r))
  {
    var i := FindAddr(s.peers, addr);
    if i.Some? {
      var e := s.peers[i.value].(result := r, timeout := INIT);
      var peers := s.peers[i.value := e];
      assert peers[i.value] == e;
      var best := McpdMin(Deref(peers, s.closest), Some(e));
      assert best.Some? ==> best.value in peers;
    }
  }

  lemma AddKeeps(s: State, addr: nat, answer: Option<nat>, junk: Result)
    requires Inv(s)
    ensures Inv(AddPeer(s, addr, answer, junk).0)
  {
    var s' := AddPeer(s, addr, answer, junk).0;
    assert s.peers <= s'.peers;
    if s.closest.Some? {
      var i :| 0 <= i < |s.peers| && s.peers[i].id == s.closest.value;
      assert s'.peers[i].id == s.closest.value;
    }
    forall i | 0 <= i < |s.peers| ensures s'.peers[i] == s.peers[i] && s.peers[i] in s.peers {}
  }

  lemma HandleKeeps(s: State, e: Event)
    requires Inv(s)
    ensures Inv(Handle(s, e))
  {
    match e
    case Added(addr, answer, junk) => AddKeeps(s, addr, answer, junk);
    case Measurement(addr, r) => ResultKeeps(s, addr, r);
    case Timer => TickKeeps(s);
  }

  lemma {:induction false} RunKeeps(s: State, events: seq<Event>)
    requires Inv(s)
    ensures Inv(Run(s, events))
    decreases |events|
  {
    hide Inv, Handle;
    var n := |events| - 1;
    if n >= 0 {
      RunKeeps(s, events[..n]);
      HandleKeeps(Run(s, events[..n]), events[n]);
    }
  }

  /** In every run: no address is listed twice, and `closest_peer` is NULL or a listed, allocated entry. */
  lemma ClosestIsLive(events: seq<Event>)
    ensures var s := Run(START, events);
            && (forall i, j :: 0 <= i < j < |s.peers| ==> s.peers[i].addr != s.peers[j].addr)
            && (s.closest.Some? ==> s.closest.value in s.heap && Deref(s.peers, s.closest).Some?)
  {
    RunKeeps(START, events);
    var s := Run(START, events);
    if s.closest.Some? {
      var i :| 0 <= i < |s.peers| && s.peers[i].id == s.closest.value;
      DerefFinds(s.peers, i);
    }
  }

  lemma {:induction false} DerefFinds(peers: seq<Entry>, i: nat)
    requires i < |peers|
    ensures Deref(peers, Some(peers[i].id)).Some?
  {
    if i > 0 { DerefFinds(peers[1..], i - 1); }
  }

  // ---------------------------------------------------------------- lifetimes

  function Ticks(events: seq<Event>): nat
    decreases |events|
  {
    if |events| == 0 then 0
    else Ticks(events[..|events| - 1]) + if events[|events| - 1].Timer? then 1 else 0
  }

  /** The event neither adds nor measures the peer. */
  predicate LeavesAlone(e: Event, addr: nat) {
    (e.Added? ==> e.addr != addr) && (e.Measurement? ==> e.addr != addr)
  }

  /** The peer is listed with this much time left. */
  ghost predicate HasTime(s: State, addr: nat, t: int) {
    exists i :: 0 <= i < |s.peers| && s.peers[i].addr == addr && s.peers[i].timeout == t
  }

  lemma OthersLeaveAlone(s: State, e: Event, addr: nat, t: int)
    requires Inv(s) && LeavesAlone(e, addr) && !e.Timer?
    ensures HasTime(s, addr, t) <==> HasTime(Handle(s, e), addr, t)
    ensures Listed(s, addr) <==> Listed(Handle(s, e), addr)
  {
    var s' := Handle(s, e);
    forall i | 0 <= i < |s.peers| && s.peers[i].addr == addr ensures i < |s'.peers| && s'.peers[i] == s.peers[i] {}
    forall i | 0 <= i < |s'.peers| && s'.peers[i].addr == addr ensures i < |s.peers| && s'.peers[i] == s.peers[i] {}
  }

  lemma TickAges(s: State, addr: nat, t: nat)
    requires Inv(s) && HasTime(s, addr, t)
    ensures t <= STEP ==> !Listed(Tick(s), addr)
    ensures Listed(Tick(s), addr) ==> t > STEP && HasTime(Tick(s), addr, t - STEP)
  {
    TickIs(s);
    hide Cut, Tick;
    var c, s' := Cut(s.peers), Tick(s);
    var i :| 0 <= i < |s.peers| && s.peers[i].addr == addr && s.peers[i].timeout == t;
    if i >= c { assert s'.peers[i - c] == Aged(s.peers[i]); }
    forall k | 0 <= k < |s'.peers| && s'.peers[k].addr == addr ensures i == k + c {}
  }

  lemma TickAddsNobody(s: State, addr: nat)
    requires !Listed(s, addr)
    ensures !Listed(Tick(s), addr)
  {
    TickIs(s);
  }

  /**
   From its last measurement on, a peer that is not added or measured again loses one step at each tick, and is gone
   after the 20th at the latest, whatever happens to other peers.
   */
  lemma {:induction false} Lifetime(s: State, events: seq<Event>, addr: nat)
    requires Inv(s) && HasTime(s, addr, INIT) && forall e :: e in events ==> LeavesAlone(e, addr)
    ensures var s', n := Run(s, events), Ticks(events);
            Listed(s', addr) ==> n < LIFETIME && HasTime(s', addr, INIT - STEP * n)
    decreases |events|
  {
    hide Inv, Tick;
    var m := |events| - 1;
    if m >= 0 {
      var before := Run(s, events[..m]);
      var n := Ticks(events[..m]);
      Lifetime(s, events[..m], addr);
      RunKeeps(s, events[..m]);
      if !events[m].Timer? {
        OthersLeaveAlone(before, events[m], addr, INIT - STEP * n);
      } else if Listed(before, addr) {
        TickAges(before, addr, INIT - STEP * n);
      } else {
        TickAddsNobody(before, addr);
      }
    }
  }

  /** No entry listed behind the peer is about to expire. */
  predicate Covered(s: State, addr: nat) {
    forall i, j :: 0 <= i < j < |s.peers| && s.peers[i].addr == addr ==> !Expired(s.peers[j])
  }

  /** The peer is covered whenever the timer fires; once it is no longer listed, that asks for nothing. */
  predicate CoveredRun(s: State, events: seq<Event>, addr: nat)
    decreases |events|
  {
    |events| > 0 ==>
      var n := |events| - 1;
      CoveredRun(s, events[..n], addr) && (events[n].Timer? ==> Covered(Run(s, events[..n]), addr))
  }

  lemma CoveredSurvives(s: State, addr: nat, t: nat)
    requires Inv(s) && HasTime(s, addr, t)
    ensures Listed(Tick(s), addr) <==> t > STEP && Covered(s, addr)
  {
    var i :| 0 <= i < |s.peers| && s.peers[i].addr == addr && s.peers[i].timeout == t;
    TickLists(s, i);
    hide Tick;
    var c := Cut(s.peers);
    if i < c && t > STEP { assert Expired(s.peers[c - 1]) && i < c - 1; }
  }

  /**
   The exact lifetime of one peer, whatever happens to others: from its last measurement on it is listed if and only if
   fewer than 20 ticks have passed and no tick removed an entry listed behind it.
   */
  lemma {:induction false} ExactLifetime(s: State, events: seq<Event>, addr: nat)
    requires Inv(s) && HasTime(s, addr, INIT) && forall e :: e in events ==> LeavesAlone(e, addr)
    ensures Listed(Run(s, events), addr) <==> Ticks(events) < LIFETIME && CoveredRun(s, events, addr)
    decreases |events|
  {
    hide Inv, Tick, Covered;
    var m := |events| - 1;
    if m >= 0 {
      var before := Run(s, events[..m]);
      var n := Ticks(events[..m]);
      ExactLifetime(s, events[..m], addr);
      Lifetime(s, events[..m], addr);
      RunKeeps(s, events[..m]);
      if !events[m].Timer? {
        OthersLeaveAlone(before, events[m], addr, INIT - STEP * n);
      } else if Listed(before, addr) {
        CoveredSurvives(before, addr, INIT - STEP * n);
      } else {
        TickAddsNobody(before, addr);
      }
    }
  }

  /** The condition is needed: a peer measured half-way is dropped, never freed, when the one behind it expires. */
  lemma MeasuredPeerIsLost(s: State, a: Entry, b: Entry)
    requires s.peers == [a, b] && a.timeout == INIT && b.timeout == STEP && a.id != b.id && s.heap == {a.id, b.id}
    ensures Tick(s).peers == [] && Tick(s).heap == {a.id}
  {
    TickIs(s);
  }

  lemma RunOneMore(s: State, events: seq<Event>, e: Event)
    ensures Run(s, events + [e]) == Handle(Run(s, events), e)
  {
    assert (events + [e])[..|events|] == events;
  }

  /** The entry `n` ticks later. */
  function Older(e: Entry, n: nat): Entry
    requires e.timeout >= STEP * n
  {
    e.(timeout := e.timeout - STEP * n)
  }

  function Timers(n: nat): seq<Event> {
    if n == 0 then [] else Timers(n - 1) + [Timer]
  }

  lemma TimersAppend(events: seq<Event>, n: nat)
    requires n > 0
    ensures events + Timers(n) == events + Timers(n - 1) + [Timer]
  {}

  /** Ticks in a row that remove nobody. */
  lemma {:induction false} TicksInARow(s: State, events: seq<Event>, a: Entry, b: Entry, n: nat)
    requires Run(s, events).peers == [a, b] && a.timeout > STEP * n && b.timeout > STEP * n
    ensures Run(s, events + Timers(n)) == Run(s, events).(peers := [Older(a, n), Older(b, n)])
    decreases n
  {
    hide Tick, Run;
    if n == 0 {
      assert events + Timers(0) == events;
    } else {
      TicksInARow(s, events, a, b, n - 1);
      TimersAppend(events, n);
      RunOneMore(s, events + Timers(n - 1), Timer);
      TickOfTwo(Run(s, events + Timers(n - 1)), Older(a, n - 1), Older(b, n - 1));
    }
  }

  lemma TickOfTwo(s: State, a: Entry, b: Entry)
    requires s.peers == [a, b] && !Expired(a) && !Expired(b)
    ensures Tick(s) == s.(peers := [Aged(a), Aged(b)])
  {
    TickIs(s);
    hide Tick;
    assert Cut(s.peers) == 0 && s.peers[0..] == s.peers;
    assert ExpiredIds(s.peers) == {};
  }

  /**
   Such a list is reached: two peers are added, 19 ticks pass, the first peer is measured, and one more tick loses it.
   */
  lemma LossIsReached(a: nat, b: nat, p: nat, q: nat, junk: Result, r: Result)
    requires a != b && p != q
    ensures var s := Run(START, [Added(a, Some(p), junk), Added(b, Some(q), junk)] + Timers(19)
                                + [Measurement(a, r)] + [Timer]);
            s.peers == [] && s.heap == {p}
  {
    var both := [Added(a, Some(p), junk), Added(b, Some(q), junk)];
    BothAdded(a, b, p, q, junk);
    hide Tick, TakeResult;
    var aged := both + Timers(19);
    TicksInARow(START, both, Entry(p, a, junk, INIT), Entry(q, b, junk, INIT), 19);
    RunOneMore(START, aged, Measurement(a, r));
    var s := Run(START, aged);
    assert s.peers == [Entry(p, a, junk, STEP), Entry(q, b, junk, STEP)];
    FirstMeasured(s, a, r);
    RunOneMore(START, aged + [Measurement(a, r)], Timer);
    MeasuredPeerIsLost(TakeResult(s, a, r), Entry(p, a, r, INIT), Entry(q, b, junk, STEP));
  }

  lemma BothAdded(a: nat, b: nat, p: nat, q: nat, junk: Result)
    requires a != b && p != q
    ensures Run(START, [Added(a, Some(p), junk), Added(b, Some(q), junk)]) ==
            State([Entry(p, a, junk, INIT), Entry(q, b, junk, INIT)], None, {p, q})
  {
    RunOneMore(START, [], Added(a, Some(p), junk));
    RunOneMore(START, [Added(a, Some(p), junk)], Added(b, Some(q), junk));
    assert [] + [Added(a, Some(p), junk)] == [Added(a, Some(p), junk)];
  }

  lemma FirstMeasured(s: State, addr: nat, r: Result)
    requires |s.peers| == 2 && s.peers[0].addr == addr
    ensures TakeResult(s, addr, r).peers == [s.peers[0].(result := r, timeout := INIT), s.peers[1]]
    ensures TakeResult(s, addr, r).heap == s.heap
  {}

  // ---------------------------------------------------------------- the code

  function Ids(peers: seq<Entry>): seq<nat> {
    seq(|peers|, i requires 0 <= i < |peers| => peers[i].id)
  }

  class PeerTracker {
    var peers: seq<Entry>
    var closest: Option<nat>
    var heap: set<nat>

    ghost function View(): State
      reads this
    {
      State(peers, closest, heap)
    }

    constructor ()
      ensures View() == START
    {
      peers, closest, heap := [], None, {};
    }

    method PeerFind(addr: nat) returns (r: Option<nat>)
      ensures r == FindAddr(peers, addr)
    {
      var i := 0;
      assert peers[0..] == peers;
      while i < |peers|
        invariant 0 <= i <= |peers|
        invariant FindAddr(peers, addr) ==
                  match FindAddr(peers[i..], addr) case None => None case Some(k) => Some(i + k)
      {
        if peers[i].addr == addr { return Some(i); }
        assert peers[i..][1..] == peers[i + 1..];
        i := i + 1;
      }
      return None;
    }

    method PeerFindClosest() returns (best: Option<Entry>)
      ensures best == FindClosest(peers)
      ensures Measured(peers) ==> IsFarthest(peers, |peers|, best)
    {
      if Measured(peers) { ClosestIsFarthest(peers); }
      if |peers| == 0 { return None; }
      best := Some(peers[0]);
      for i := 0 to |peers|
        invariant best == Candidate(peers, i)
      {
        best := McpdMin(best, Some(peers[i]));
      }
    }

    method PeerSupportedAdd(addr: nat, answer: Option<nat>, junk: Result) returns (ok: bool)
      modifies this
      ensures (View(), ok) == AddPeer(old(View()), addr, answer, junk)
    {
      var i := PeerFind(addr);
      if i.Some? { return true; }
      if answer.None? || answer.value in heap { return false; }
      heap := heap + {answer.value};
      peers := peers + [Entry(answer.value, addr, junk, INIT)];
      return true;
    }

    /** The body of the loop of `peer_thread`. */
    method OnResult(addr: nat, r: Result)
      modifies this
      ensures View() == TakeResult(old(View()), addr, r)
    {
      var i := PeerFind(addr);
      if i.Some? {
        var peer := peers[i.value].(result := r, timeout := INIT);
        peers := peers[i.value := peer];
        closest := IdOf(McpdMin(Deref(peers, closest), Some(peer)));
      }
    }

    /** `timeout_handler`; every entry listed at its start is visited once, in order, despite the removals. */
    method OnTimeout() returns (ghost visited: seq<nat>)
      modifies this
      ensures View() == Tick(old(View()))
      ensures visited == Ids(old(peers))
    {
      hide Sweep, Ids, Tick, FindClosest;
      ghost var start := peers;
      ghost var k := 0;
      var i := 0;
      visited := [];
      SweepStarts(View());
      while i < |peers|
        invariant 0 <= i <= |peers| && k <= |start| && peers[i..] == start[k..]
        invariant visited == Ids(start[..k])
        invariant Sweep(peers[..i], peers[i..], closest, heap) == Tick(old(View()))
        decreases |start| - k
      {
        var item := peers[i];
        SweepStep(peers[..i], peers[i..], closest, heap);
        OneVisited(start, k);
        assert item == start[k] && peers[i..][1..] == peers[i + 1..] == start[k + 1..];
        visited := visited + [item.id];
        k := k + 1;
        if item.timeout > STEP {
          Replaced(peers, i, item.(timeout := item.timeout - STEP));
          peers := peers[i := item.(timeout := item.timeout - STEP)];
          i := i + 1;
        } else {
          peers := peers[i + 1..];
          heap := heap - {item.id};
          i := 0;
          var best := PeerFindClosest();
          closest := IdOf(best);
          assert peers[..0] == [] && peers[0..] == peers;
        }
      }
      SweepEnds(peers[..i], peers[i..], closest, heap);
      assert peers[..i] == peers && start[..k] == start;
    }
  }

  lemma SweepStarts(s: State)
    ensures Sweep(s.peers[..0], s.peers[0..], s.closest, s.heap) == Tick(s) && Ids(s.peers[..0]) == []
  {
    assert s.peers[..0] == [] && s.peers[0..] == s.peers;
  }

  lemma SweepStep(front: seq<Entry>, rest: seq<Entry>, closest: Option<nat>, heap: set<nat>)
    requires |rest| > 0
    ensures Sweep(front, rest, closest, heap) ==
            if rest[0].timeout > STEP
            then Sweep(front + [rest[0].(timeout := rest[0].timeout - STEP)], rest[1..], closest, heap)
            else Sweep([], rest[1..], IdOf(FindClosest(rest[1..])), heap - {rest[0].id})
  {}

  lemma SweepEnds(front: seq<Entry>, rest: seq<Entry>, closest: Option<nat>, heap: set<nat>)
    requires |rest| == 0
    ensures Sweep(front, rest, closest, heap) == State(front, closest, heap)
  {}

  lemma OneVisited(start: seq<Entry>, k: nat)
    requires k < |start|
    ensures Ids(start[..k + 1]) == Ids(start[..k]) + [start[k].id]
  {}

  lemma Replaced(s: seq<Entry>, i: nat, e: Entry)
    requires i < |s|
    ensures s[i := e][..i + 1] == s[..i] + [e] && s[i := e][i + 1..] == s[i + 1..]
  {}
}
