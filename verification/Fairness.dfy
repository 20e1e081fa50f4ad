/** Runs of two cores: if what is left to do falls whenever the core that is waited for moves, a fair run is short. */
module Fairness {

  datatype Core = App | Net

  /** In every `k` steps in a row each core moves. */
  ghost predicate Fair(who: seq<Core>, k: nat) {
    k > 0 && forall i, core :: 0 <= i <= |who| - k ==> Moves(who, i, k, core)
  }

  ghost predicate Moves(who: seq<Core>, i: nat, k: nat, core: Core)
    requires i + k <= |who|
  {
    exists j :: i <= j < i + k && who[j] == core
  }

  /**
   What is left, `left`, never rises; it falls when the core that is waited for, `waits`, moves; and while it stands
   still the same core is waited for.
   */
  ghost predicate Descends(left: seq<int>, waits: seq<Core>, who: seq<Core>) {
    && |left| == |waits| == |who| + 1
    && (forall i :: 0 <= i < |left| ==> left[i] >= 0)
    && (forall i :: 0 <= i < |who| ==> OneStep(left[i], waits[i], who[i], left[i + 1], waits[i + 1]))
  }

  predicate OneStep(left: int, waits: Core, core: Core, left': int, waits': Core) {
    left' <= left && (core == waits ==> left' < left) && (left' == left ==> waits' == waits)
  }

  lemma {:induction false} StandsOrFalls(left: seq<int>, waits: seq<Core>, who: seq<Core>, i: nat)
    requires Descends(left, waits, who) && i <= |who|
    ensures left[i] <= left[0] && (left[i] == left[0] ==> waits[i] == waits[0])
    decreases i
  {
    if i > 0 {
      StandsOrFalls(left, waits, who, i - 1);
      assert OneStep(left[i - 1], waits[i - 1], who[i - 1], left[i], waits[i]);
    }
  }

  lemma {:induction false} NeverRises(left: seq<int>, waits: seq<Core>, who: seq<Core>, i: nat, j: nat)
    requires Descends(left, waits, who) && i <= j <= |who|
    ensures left[j] <= left[i]
    decreases j
  {
    if i < j {
      NeverRises(left, waits, who, i, j - 1);
      assert OneStep(left[j - 1], waits[j - 1], who[j - 1], left[j], waits[j]);
    }
  }

  /** Once the core that is waited for at the start has moved, less is left. */
  lemma MoveGains(left: seq<int>, waits: seq<Core>, who: seq<Core>, j: nat, i: nat)
    requires Descends(left, waits, who) && j < i <= |who| && who[j] == waits[0]
    ensures left[i] < left[0]
  {
    StandsOrFalls(left, waits, who, j);
    assert OneStep(left[j], waits[j], who[j], left[j + 1], waits[j + 1]);
    NeverRises(left, waits, who, j + 1, i);
  }

  /** A fair run takes less than `k` steps for each unit that is left at its start, and one. */
  lemma {:induction false} FairDescent(left: seq<int>, waits: seq<Core>, who: seq<Core>, k: nat)
    requires Descends(left, waits, who) && Fair(who, k)
    ensures left[0] >= 0 && |who| < k * left[0] + k
    decreases |who|
  {
    var r := left[0];
    if |who| < k {
      Windows(k, 0, r);
    } else {
      assert Moves(who, 0, k, waits[0]);
      var j :| 0 <= j < k && who[j] == waits[0];
      MoveGains(left, waits, who, j, k);
      FairSuffix(who, k);
      DescentSuffix(left, waits, who, k);
      FairDescent(left[k..], waits[k..], who[k..], k);
      Windows(k, left[k] + 1, r);
      Windows(k, left[k], left[k]);
    }
  }

  lemma DescentSuffix(left: seq<int>, waits: seq<Core>, who: seq<Core>, k: nat)
    requires Descends(left, waits, who) && k <= |who|
    ensures Descends(left[k..], waits[k..], who[k..])
  {
    forall i | 0 <= i < |who[k..]|
      ensures OneStep(left[k..][i], waits[k..][i], who[k..][i], left[k..][i + 1], waits[k..][i + 1])
    {
      assert OneStep(left[k + i], waits[k + i], who[k + i], left[k + i + 1], waits[k + i + 1]);
    }
  }

  lemma FairSuffix(who: seq<Core>, k: nat)
    requires Fair(who, k) && k <= |who|
    ensures Fair(who[k..], k)
  {
    forall i, core | 0 <= i <= |who[k..]| - k ensures Moves(who[k..], i, k, core) {
      assert Moves(who, k + i, k, core);
      var j :| k + i <= j < k + i + k && who[j] == core;
      assert who[k..][j - k] == core;
    }
  }

  lemma Windows(k: nat, a: nat, r: nat)
    requires a <= r
    ensures 0 <= k * a <= k * r && k * (r + 1) == k * r + k
  {
    var d := r - a;
    assert k * r == k * a + k * d;
  }
}
