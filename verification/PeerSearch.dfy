/**
 The search for the closest peer on any list, entries that were added and not measured yet among them: their results are
 not initialised, so their mode may be neither of the two, and the search then falls through to comparing distances.
 */
module PeerSearch {
  import opened Bytes
  import opened PeerList

  predicate IsMcpd(e: Entry) {
    e.result.mode.Mcpd?
  }

  /** The candidate is not a measurement and lies beyond `e`, so that `e` does not take its place. */
  predicate Overtakes(cand: Option<Entry>, e: Entry) {
    cand.Some? && cand.value.result.mode.Other? && cand.value.result.best > e.result.best
  }

  /** No entry behind `k` that is not measured is as far away as the one at `k`, and none in front of it blocks it. */
  predicate Unblocked(peers: seq<Entry>, k: nat)
    requires k < |peers|
  {
    && !Overtakes(FindClosest(peers[..k]), peers[k])
    && forall j :: k < j < |peers| && peers[j].result.mode.Other? ==> peers[j].result.best < peers[k].result.best
  }

  /** The last of the entries with the greatest distance, whatever their modes. */
  function Greatest(peers: seq<Entry>, n: nat): Entry
    requires 0 < n <= |peers|
  {
    if n == 1 then peers[0]
    else if Greatest(peers, n - 1).result.best > peers[n - 1].result.best then Greatest(peers, n - 1)
    else peers[n - 1]
  }

  /** An RTT entry meets an RTT candidate, and from there on there is none. */
  predicate Resets(peers: seq<Entry>, j: nat)
    requires j < |peers|
  {
    peers[j].result.mode.Rtt? && (j == 0 || Greatest(peers, j).result.mode.Rtt?)
  }

  /** What the list has to be like for the search to be right. */
  ghost predicate SearchIsRight(peers: seq<Entry>) {
    && (forall k :: 0 <= k < |peers| && IsLastFarthest(peers, |peers|, peers[k], k) ==> Unblocked(peers, k))
    && (|peers| > 0 && (forall j :: 0 <= j < |peers| ==> !IsMcpd(peers[j])) ==>
          exists j :: 0 <= j < |peers| && Resets(peers, j))
  }

  // ---------------------------------------------------------------- lists with an MCPD entry

  lemma {:induction false} CandidateOfPrefix(peers: seq<Entry>, k: nat, n: nat)
    requires 0 < k <= |peers| && n <= k
    ensures Candidate(peers[..k], n) == Candidate(peers, n)
  {
    if n > 0 { CandidateOfPrefix(peers, k, n - 1); }
  }

  lemma {:induction false} FarthestExists(peers: seq<Entry>, n: nat, i: nat) returns (k: nat)
    requires i < n <= |peers| && IsMcpd(peers[i])
    ensures k < n && IsLastFarthest(peers, n, peers[k], k)
    decreases n
  {
    var b := peers[n - 1];
    if i < n - 1 {
      k := FarthestExists(peers, n - 1, i);
      if IsMcpd(b) && peers[k].result.best <= b.result.best { k := n - 1; }
    } else if j :| 0 <= j < n - 1 && IsMcpd(peers[j]) {
      k := FarthestExists(peers, n - 1, j);
      if peers[k].result.best <= b.result.best { k := n - 1; }
    } else {
      k := n - 1;
    }
  }

  lemma OneFarthest(peers: seq<Entry>, n: nat, j: nat, k: nat)
    requires n <= |peers| && j < n && k < n
    requires IsLastFarthest(peers, n, peers[j], j) && IsLastFarthest(peers, n, peers[k], k)
    ensures j == k
  {}

  /** The farthest entry becomes the candidate at its turn unless it is overtaken. */
  lemma FarthestAtItsTurn(peers: seq<Entry>, k: nat)
    requires k < |peers| && IsLastFarthest(peers, |peers|, peers[k], k)
    ensures Candidate(peers, k + 1) == Some(peers[k]) <==> !Overtakes(FindClosest(peers[..k]), peers[k])
  {
    var e := peers[k];
    assert Candidate(peers, k + 1) == McpdMin(Candidate(peers, k), Some(e));
    if k == 0 {
      assert Candidate(peers, 0) == Some(e);
    } else {
      CandidateOfPrefix(peers, k, k);
      var cand := Candidate(peers, k);
      assert FindClosest(peers[..k]) == cand;
      if cand.Some? {
        CandidateIsListed(peers, k);
        var j :| 0 <= j < k && peers[j] == cand.value;
      }
    }
  }

  lemma {:induction false} CandidateIsListed(peers: seq<Entry>, n: nat)
    requires 0 < n <= |peers| && Candidate(peers, n).Some?
    ensures exists j :: 0 <= j < n && peers[j] == Candidate(peers, n).value
    decreases n
  {
    if n == 1 {
      assert Candidate(peers, 0) == Some(peers[0]);
    } else {
      assert Candidate(peers, n) == McpdMin(Candidate(peers, n - 1), Some(peers[n - 1]));
      if Candidate(peers, n) == Candidate(peers, n - 1) { CandidateIsListed(peers, n - 1); }
      else { assert Candidate(peers, n) == Some(peers[n - 1]); }
    }
  }

  /** From its turn on it stays the candidate until an unmeasured entry at least as far away comes. */
  lemma {:induction false} FarthestStays(peers: seq<Entry>, k: nat, n: nat)
    requires k < n <= |peers| && IsLastFarthest(peers, |peers|, peers[k], k)
    ensures Candidate(peers, n) == Some(peers[k]) <==>
            && Candidate(peers, k + 1) == Some(peers[k])
            && forall j :: k < j < n && peers[j].result.mode.Other? ==> peers[j].result.best < peers[k].result.best
    decreases n
  {
    if n > k + 1 {
      FarthestStays(peers, k, n - 1);
      var b := peers[n - 1];
      assert Candidate(peers, n) == McpdMin(Candidate(peers, n - 1), Some(b));
      assert b != peers[k];
    }
  }

  lemma FoundIff(peers: seq<Entry>, k: nat)
    requires k < |peers| && IsLastFarthest(peers, |peers|, peers[k], k)
    ensures FindClosest(peers) == Some(peers[k]) <==> Unblocked(peers, k)
  {
    FarthestAtItsTurn(peers, k);
    FarthestStays(peers, k, |peers|);
  }

  // ---------------------------------------------------------------- lists without one

  /** Without MCPD entries the candidate is the greatest so far, until a reset. */
  lemma {:induction false} CandidateWithoutMcpd(peers: seq<Entry>, n: nat)
    requires 0 < n <= |peers| && forall j :: 0 <= j < |peers| ==> !IsMcpd(peers[j])
    ensures if exists j :: 0 <= j < n && Resets(peers, j) then Candidate(peers, n).None?
            else Candidate(peers, n) == Some(Greatest(peers, n))
    decreases n
  {
    var b := peers[n - 1];
    assert Candidate(peers, n) == McpdMin(Candidate(peers, n - 1), Some(b));
    if n == 1 {
      assert Candidate(peers, 0) == Some(peers[0]);
      assert Resets(peers, 0) <==> peers[0].result.mode.Rtt?;
    } else {
      CandidateWithoutMcpd(peers, n - 1);
      GreatestIsListed(peers, n - 1);
      if j :| 0 <= j < n - 1 && Resets(peers, j) {
        assert Resets(peers, j);
      } else {
        assert Resets(peers, n - 1) <==> b.result.mode.Rtt? && Greatest(peers, n - 1).result.mode.Rtt?;
      }
    }
  }

  lemma {:induction false} GreatestIsListed(peers: seq<Entry>, n: nat)
    requires 0 < n <= |peers|
    ensures exists j :: 0 <= j < n && peers[j] == Greatest(peers, n)
    decreases n
  {
    if n > 1 && Greatest(peers, n) == Greatest(peers, n - 1) {
      GreatestIsListed(peers, n - 1);
      var j :| 0 <= j < n - 1 && peers[j] == Greatest(peers, n - 1);
    } else {
      assert Greatest(peers, n) == peers[n - 1];
    }
  }

  // ---------------------------------------------------------------- the verdict

  /**
   The exact condition for every list: the search returns the last of the farthest MCPD entries, or NULL if there is
   none, if and only if no unmeasured entry gets in the way.
   */
  lemma SearchVerdict(peers: seq<Entry>)
    ensures IsFarthest(peers, |peers|, FindClosest(peers)) <==> SearchIsRight(peers)
  {
    if i :| 0 <= i < |peers| && IsMcpd(peers[i]) {
      var k := FarthestExists(peers, |peers|, i);
      FoundIff(peers, k);
      forall j | 0 <= j < |peers| && IsLastFarthest(peers, |peers|, peers[j], j) ensures j == k {
        OneFarthest(peers, |peers|, j, k);
      }
      RightMeansFound(peers, k);
    } else if |peers| > 0 {
      CandidateWithoutMcpd(peers, |peers|);
    }
  }

  lemma RightMeansFound(peers: seq<Entry>, k: nat)
    requires k < |peers| && IsLastFarthest(peers, |peers|, peers[k], k)
    ensures IsFarthest(peers, |peers|, FindClosest(peers)) <==> FindClosest(peers) == Some(peers[k])
  {
    var r := FindClosest(peers);
    if IsFarthest(peers, |peers|, r) && r.Some? {
      var j :| 0 <= j < |peers| && IsLastFarthest(peers, |peers|, r.value, j);
      OneFarthest(peers, |peers|, j, k);
    }
  }

  /** New peers are appended: behind measured ones the search is right unless one of them is as far as the farthest. */
  lemma AppendedVerdict(front: seq<Entry>, us: seq<Entry>)
    requires Measured(front) && |front| > 0 && forall u :: u in us ==> u.result.mode.Other?
    ensures FindClosest(front + us) == FindClosest(front) <==>
            FindClosest(front).None? || forall u :: u in us ==> u.result.best < FindClosest(front).value.result.best
  {
    var peers := front + us;
    ClosestIsFarthest(front);
    CandidateOfPrefix(peers, |front|, |front|);
    assert peers[..|front|] == front;
    if FindClosest(front).None? {
      NoneStays(peers, |front|, |peers|);
    } else {
      var e := FindClosest(front).value;
      var k :| 0 <= k < |front| && IsLastFarthest(front, |front|, e, k);
      assert IsLastFarthest(peers, |peers|, e, k);
      FoundIff(peers, k);
      AppendedUnblocked(front, us, k);
    }
  }

  lemma AppendedUnblocked(front: seq<Entry>, us: seq<Entry>, k: nat)
    requires Measured(front) && k < |front| && forall u :: u in us ==> u.result.mode.Other?
    ensures Unblocked(front + us, k) <==> forall u :: u in us ==> u.result.best < front[k].result.best
  {
    var peers := front + us;
    hide FindClosest;
    assert peers[..k] == front[..k];
    assert FindClosest(front[..k]).Some? ==> FindClosest(front[..k]).value in front[..k];
    forall j | k < j < |front| ensures peers[j] in front {}
    forall j | |front| <= j < |peers| ensures peers[j] in us {}
    forall u | u in us ensures exists j :: |front| <= j < |peers| && peers[j] == u {
      var i :| 0 <= i < |us| && us[i] == u;
      assert peers[|front| + i] == u;
    }
  }

  lemma {:induction false} NoneStays(peers: seq<Entry>, m: nat, n: nat)
    requires 0 < m <= n <= |peers| && Candidate(peers, m).None?
    requires forall j :: m <= j < n ==> !IsMcpd(peers[j])
    ensures Candidate(peers, n).None?
    decreases n
  {
    if n > m { NoneStays(peers, m, n - 1); }
  }

  lemma {:induction false} CandidateWithoutRtt(peers: seq<Entry>, n: nat)
    requires 0 < n <= |peers| && forall j :: 0 <= j < |peers| ==> !peers[j].result.mode.Rtt?
    ensures Candidate(peers, n) == Some(Greatest(peers, n))
    decreases n
  {
    assert Candidate(peers, n) == McpdMin(Candidate(peers, n - 1), Some(peers[n - 1]));
    if n == 1 {
      assert Candidate(peers, 0) == Some(peers[0]);
    } else {
      CandidateWithoutRtt(peers, n - 1);
      GreatestIsListed(peers, n - 1);
    }
  }

  /** The last of the entries with the greatest distance, in terms of positions. */
  lemma {:induction false} GreatestIs(peers: seq<Entry>, n: nat) returns (k: nat)
    requires 0 < n <= |peers|
    ensures k < n && peers[k] == Greatest(peers, n)
    ensures forall j :: 0 <= j < n ==> peers[j].result.best <= peers[k].result.best
    ensures forall j :: k < j < n ==> peers[j].result.best < peers[k].result.best
    decreases n
  {
    if n == 1 {
      k := 0;
    } else {
      k := GreatestIs(peers, n - 1);
      if !(peers[k].result.best > peers[n - 1].result.best) { k := n - 1; }
    }
  }

  /**
   In the default mode, without RTT entries, the search returns the last of the farthest entries, measured or not; it is
   right if and only if that one is a measurement.
   */
  lemma NoRttVerdict(peers: seq<Entry>)
    requires |peers| > 0 && forall j :: 0 <= j < |peers| ==> !peers[j].result.mode.Rtt?
    ensures FindClosest(peers) == Some(Greatest(peers, |peers|))
    ensures IsFarthest(peers, |peers|, FindClosest(peers)) <==> IsMcpd(Greatest(peers, |peers|))
  {
    CandidateWithoutRtt(peers, |peers|);
    var k := GreatestIs(peers, |peers|);
    if IsMcpd(peers[k]) { assert IsLastFarthest(peers, |peers|, peers[k], k); }
  }

  /** With unmeasured entries alone the search always returns one of them. */
  lemma OnlyUnmeasured(us: seq<Entry>)
    requires |us| > 0 && forall u :: u in us ==> u.result.mode.Other?
    ensures FindClosest(us) == Some(Greatest(us, |us|)) && !SearchIsRight(us)
  {
    forall j | 0 <= j < |us| ensures us[j] in us && !Resets(us, j) {}
    CandidateWithoutMcpd(us, |us|);
    SearchVerdict(us);
  }
}
