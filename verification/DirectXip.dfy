/**
 Direct-XIP boot: the newest image that passes the checks runs in place.  With the revert mechanism, an image that was
 started once and did not confirm itself is erased the next time it would be chosen.
 */
module DirectXip {
  import opened Bytes
  import opened Versions

  /** A trailer flag as it is read; a bad one may hold bits that a write can still clear to make it read as set. */
  datatype Flag = Set | Unset | Bad(settable: bool)

  /** The flag after a write that sets it: on flash a write can only clear bits. */
  function Programmed(f: Flag): Flag {
    if f == Bad(false) then f else Set
  }

  datatype Trailer = Trailer(magicGood: bool, copyDone: Flag, imageOk: Flag)

  /**
   What the boot loader reads from a slot: whether its header is sane, the version there, whether it is erased or
   marked non-bootable, the verdict of the hash check, and the trailer.
   */
  datatype Slot = Slot(headerOk: bool, version: Version, noImage: bool, checkOk: bool, trailer: Trailer)

  /** `revert` is the revert mechanism; `erasesPrimary` is whether a failed validation may erase slot 0 as well. */
  datatype Config = Config(revert: bool, erasesPrimary: bool)

  /** The slot after an erase. */
  function Blank(s: Slot): Slot {
    Slot(false, s.version, true, false, Trailer(false, Unset, Unset))
  }

  predicate Confirmed(s: Slot) {
    s.trailer.magicGood && s.trailer.imageOk.Set?
  }

  /** The image was started before and did not confirm itself, or its trailer is damaged. */
  predicate Faulty(s: Slot) {
    !s.trailer.magicGood || (s.trailer.copyDone.Set? && !s.trailer.imageOk.Set?)
  }

  /** `boot_validate_slot` succeeds. */
  predicate ImageValid(s: Slot) {
    !s.noImage && s.headerOk && s.checkOk
  }

  predicate Passes(c: Config, s: Slot) {
    ImageValid(s) && (c.revert ==> !Faulty(s))
  }

  // ---------------------------------------------------------------- one boot, as a function

  /** The slot the scan over the first `n` slots settles on. */
  function Newest(slots: seq<Slot>, used: seq<bool>, n: nat): (r: Option<nat>)
    requires n <= |slots| == |used|
    ensures r.Some? ==> r.value < n && used[r.value]
    ensures r.None? <==> forall k :: 0 <= k < n ==> !used[k]
  {
    if n == 0 then None
    else
      var best := Newest(slots, used, n - 1);
      if !used[n - 1] then best
      else if best.Some? && Compare(slots[n - 1].version, slots[best.value].version) < 1 then best
      else Some(n - 1)
  }

  /** The return code that the scan leaves behind: the last comparison it made, if it made one. */
  function ScanRc(slots: seq<Slot>, used: seq<bool>, n: nat, rc: int): int
    requires n <= |slots| == |used|
  {
    if n == 0 then rc
    else
      var best := Newest(slots, used, n - 1);
      if used[n - 1] && best.Some? then Compare(slots[n - 1].version, slots[best.value].version)
      else ScanRc(slots, used, n - 1, rc)
  }

  function Count(used: seq<bool>): nat {
    if |used| == 0 then 0 else Count(used[..|used| - 1]) + (if used[|used| - 1] then 1 else 0)
  }

  /** The slot after `boot_select_or_erase`; the copy-done write may fail. */
  function SelectOrErase(s: Slot, writeOk: bool): Slot {
    if Faulty(s) then Blank(s)
    else if !s.trailer.copyDone.Set? && writeOk then
      s.(trailer := s.trailer.(copyDone := Programmed(s.trailer.copyDone)))
    else s
  }

  /** The slot after a failed `boot_validate_slot`. */
  function AfterFailedValidation(c: Config, s: Slot, k: nat): Slot {
    if s.noImage then s
    else if k != 0 || c.erasesPrimary then Blank(s)
    else s
  }

  /** The slots afterwards, the slot in the response, and the return code. */
  datatype Outcome = Outcome(slots: seq<Slot>, selected: Option<nat>, rc: int)

  /** The selection loop, from a state in which the slots in `used` are still candidates. */
  function Select(c: Config, slots: seq<Slot>, used: seq<bool>, rc: int, writeOk: bool): (o: Outcome)
    requires |slots| == |used|
    ensures |o.slots| == |slots| && (o.selected.Some? ==> o.selected.value < |slots|)
    decreases Count(used)
  {
    var best := Newest(slots, used, |slots|);
    if best.None? then Outcome(slots, None, rc)
    else
      var k := best.value;
      var rc' := ScanRc(slots, used, |slots|, rc);
      CountDrops(used, k);
      if c.revert && Faulty(slots[k]) then
        Select(c, slots[k := Blank(slots[k])], used[k := false], -1, writeOk)
      else
        var s := if c.revert then SelectOrErase(slots[k], writeOk) else slots[k];
        var rc'' := if c.revert then 0 else rc';
        if ImageValid(s) then Outcome(slots[k := s], best, rc'')
        else Select(c, slots[k := AfterFailedValidation(c, s, k)], used[k := false], rc'', writeOk)
  }

  lemma {:induction false} CountDrops(used: seq<bool>, k: nat)
    requires k < |used| && used[k]
    ensures Count(used[k := false]) == Count(used) - 1
    decreases |used|
  {
    var n := |used| - 1;
    if k < n {
      CountDrops(used[..n], k);
      assert used[k := false][..n] == used[..n][k := false];
    } else {
      assert used[k := false][..n] == used[..n];
    }
  }

  /** `boot_get_slot_usage`: the slots whose header is sane. */
  function Usage(slots: seq<Slot>): seq<bool> {
    seq(|slots|, k requires 0 <= k < |slots| => slots[k].headerOk)
  }

  function Boot(c: Config, slots: seq<Slot>, writeOk: bool): (o: Outcome)
    ensures |o.slots| == |slots| && (o.selected.Some? ==> o.selected.value < |slots|)
  {
    Select(c, slots, Usage(slots), 0, writeOk)
  }

  // ---------------------------------------------------------------- selection

  function Cmp(slots: seq<Slot>, i: nat, j: nat): int
    requires i < |slots| && j < |slots|
  {
    Compare(slots[i].version, slots[j].version)
  }

  /** `k` is the first of the greatest-version slots among the candidates. */
  ghost predicate FirstGreatest(slots: seq<Slot>, used: seq<bool>, n: nat, k: nat)
    requires n <= |slots| == |used| && k < n
  {
    && used[k]
    && forall j :: 0 <= j < n && used[j] ==>
         Cmp(slots, k, j) >= (if j < k then 1 else 0)
  }

  lemma {:induction false} NewestIsFirstGreatest(slots: seq<Slot>, used: seq<bool>, n: nat)
    requires n <= |slots| == |used|
    ensures var r := Newest(slots, used, n); r.Some? ==> FirstGreatest(slots, used, n, r.value)
  {
    if n > 0 {
      NewestIsFirstGreatest(slots, used, n - 1);
      var best := Newest(slots, used, n - 1);
      if best.Some? && used[n - 1] {
        var b := best.value;
        forall j | 0 <= j < n - 1 && Cmp(slots, n - 1, b) >= 1 && Cmp(slots, b, j) >= 0
          ensures Cmp(slots, n - 1, j) >= 1
        {
          CompareIsTotalPreorder(slots[n - 1].version, slots[b].version, slots[j].version);
        }
        CompareIsTotalPreorder(slots[b].version, slots[n - 1].version, slots[n - 1].version);
      }
    }
  }

  /** What one boot may do to a slot: nothing, set its copy-done flag, or erase it if it does not pass. */
  predicate FairlyTreated(c: Config, s: Slot, s': Slot) {
    || s' == s
    || (s' == Blank(s) && !Passes(c, s))
    || (c.revert && !Faulty(s) && s' == s.(trailer := s.trailer.(copyDone := Programmed(s.trailer.copyDone))))
  }

  /** Marks which slots are candidates that would pass. */
  predicate Eligible(c: Config, slots: seq<Slot>, used: seq<bool>, k: nat)
    requires |slots| == |used| && k < |slots|
  {
    used[k] && Passes(c, slots[k])
  }

  /**
   The slot in the response is the first greatest-version one among those that pass; there is none only if none passes.
   */
  ghost predicate RightChoice(c: Config, slots: seq<Slot>, used: seq<bool>, selected: Option<nat>)
    requires |slots| == |used|
  {
    match selected
    case None => forall k :: 0 <= k < |slots| ==> !Eligible(c, slots, used, k)
    case Some(k) =>
      && k < |slots| && Eligible(c, slots, used, k)
      && forall j :: 0 <= j < |slots| && Eligible(c, slots, used, j) ==>
           Cmp(slots, k, j) >= (if j < k then 1 else 0)
  }

  lemma {:induction false} SelectChoosesRight(c: Config, slots: seq<Slot>, used: seq<bool>, rc: int, writeOk: bool)
    requires |slots| == |used|
    ensures RightChoice(c, slots, used, Select(c, slots, used, rc, writeOk).selected)
    decreases Count(used)
  {
    var best := Newest(slots, used, |slots|);
    if best.Some? {
      var k := best.value;
      NewestIsFirstGreatest(slots, used, |slots|);
      CountDrops(used, k);
      var s := if c.revert then SelectOrErase(slots[k], writeOk) else slots[k];
      if c.revert && Faulty(slots[k]) {
        SelectWithout(c, slots, used, k, Blank(slots[k]), -1, writeOk);
      } else if !ImageValid(s) {
        var rc' := if c.revert then 0 else ScanRc(slots, used, |slots|, rc);
        SelectWithout(c, slots, used, k, AfterFailedValidation(c, s, k), rc', writeOk);
      }
    }
  }

  /** Dropping a candidate that does not pass leaves the right choice what it was. */
  lemma {:induction false} SelectWithout(c: Config, slots: seq<Slot>, used: seq<bool>, k: nat, s: Slot, rc: int,
                                         writeOk: bool)
    requires k < |slots| == |used| && used[k] && !Passes(c, slots[k]) && s.version == slots[k].version
    ensures RightChoice(c, slots, used, Select(c, slots[k := s], used[k := false], rc, writeOk).selected)
    decreases Count(used), 0
  {
    CountDrops(used, k);
    SelectChoosesRight(c, slots[k := s], used[k := false], rc, writeOk);
    forall j | 0 <= j < |slots|
      ensures Eligible(c, slots, used, j) <==> Eligible(c, slots[k := s], used[k := false], j)
    {}
  }

  lemma {:induction false} SelectTreatsFairly(c: Config, slots: seq<Slot>, used: seq<bool>, rc: int, writeOk: bool,
                                              k: nat)
    requires k < |slots| == |used|
    ensures var s' := Select(c, slots, used, rc, writeOk).slots[k];
            && FairlyTreated(c, slots[k], s')
            && (!used[k] ==> s' == slots[k])
            && (!writeOk ==> s' == slots[k] || !Passes(c, slots[k]))
    decreases Count(used)
  {
    var best := Newest(slots, used, |slots|);
    if best.Some? {
      var b := best.value;
      CountDrops(used, b);
      var s := if c.revert then SelectOrErase(slots[b], writeOk) else slots[b];
      if c.revert && Faulty(slots[b]) {
        SelectTreatsFairly(c, slots[b := Blank(slots[b])], used[b := false], -1, writeOk, k);
      } else if !ImageValid(s) {
        var rc' := if c.revert then 0 else ScanRc(slots, used, |slots|, rc);
        SelectTreatsFairly(c, slots[b := AfterFailedValidation(c, s, b)], used[b := false], rc', writeOk, k);
      }
    }
  }

  /** The chosen slot is only marked as started; with the revert mechanism the return code is then 0. */
  lemma {:induction false} SelectedSlotIsMarked(c: Config, slots: seq<Slot>, used: seq<bool>, rc: int, writeOk: bool)
    requires |slots| == |used|
    ensures var o := Select(c, slots, used, rc, writeOk);
            o.selected.Some? ==>
              && o.slots[o.selected.value] == (if c.revert then SelectOrErase(slots[o.selected.value], writeOk)
                                               else slots[o.selected.value])
              && (c.revert ==> o.rc == 0)
    decreases Count(used)
  {
    var best := Newest(slots, used, |slots|);
    if best.Some? {
      var b := best.value;
      CountDrops(used, b);
      var s := if c.revert then SelectOrErase(slots[b], writeOk) else slots[b];
      if c.revert && Faulty(slots[b]) {
        SelectedSlotIsMarked(c, slots[b := Blank(slots[b])], used[b := false], -1, writeOk);
        SelectChoosesRight(c, slots[b := Blank(slots[b])], used[b := false], -1, writeOk);
      } else if !ImageValid(s) {
        var rc' := if c.revert then 0 else ScanRc(slots, used, |slots|, rc);
        var t := AfterFailedValidation(c, s, b);
        SelectedSlotIsMarked(c, slots[b := t], used[b := false], rc', writeOk);
        SelectChoosesRight(c, slots[b := t], used[b := false], rc', writeOk);
      }
    }
  }

  /** The headline for one boot: the newest image that passes is chosen, and only images that do not pass are erased. */
  lemma BootChoosesNewest(c: Config, slots: seq<Slot>, writeOk: bool)
    ensures var o := Boot(c, slots, writeOk);
            && (o.selected.None? <==> forall k :: 0 <= k < |slots| ==> !Passes(c, slots[k]))
            && (o.selected.Some? ==>
                  var k := o.selected.value;
                  && Passes(c, slots[k])
                  && forall j :: 0 <= j < |slots| && Passes(c, slots[j]) ==>
                       Cmp(slots, k, j) >= (if j < k then 1 else 0))
            && (forall k :: 0 <= k < |slots| ==> FairlyTreated(c, slots[k], o.slots[k]))
  {
    SelectChoosesRight(c, slots, Usage(slots), 0, writeOk);
    forall k | 0 <= k < |slots| ensures Passes(c, slots[k]) <==> Eligible(c, slots, Usage(slots), k) {}
    forall k | 0 <= k < |slots| ensures FairlyTreated(c, slots[k], Boot(c, slots, writeOk).slots[k]) {
      SelectTreatsFairly(c, slots, Usage(slots), 0, writeOk, k);
    }
  }

  // ---------------------------------------------------------------- one boot, in what the slots hold

  /** What an image must show to be started. */
  predicate Startable(c: Config, s: Slot) {
    && s.headerOk && s.checkOk && !s.noImage
    && (c.revert ==> s.trailer.magicGood && (s.trailer.copyDone == Set ==> s.trailer.imageOk == Set))
  }

  /** The image in the response shows all of this, and there is none in it only if no slot does. */
  lemma BootedImageIsStartable(c: Config, slots: seq<Slot>, writeOk: bool)
    ensures var o := Boot(c, slots, writeOk);
            && (o.selected.Some? ==> Startable(c, slots[o.selected.value]))
            && (o.selected.None? <==> forall k :: 0 <= k < |slots| ==> !Startable(c, slots[k]))
            && (o.selected.Some? ==>
                  forall j :: 0 <= j < |slots| && Startable(c, slots[j]) && j != o.selected.value ==>
                    Before(slots, o.selected.value, j))
  {
    BootChoosesNewest(c, slots, writeOk);
    forall k | 0 <= k < |slots| ensures Passes(c, slots[k]) <==> Startable(c, slots[k]) {}
    hide Passes;
  }

  /** A slot as it reads after an erase. */
  predicate IsErased(s: Slot) {
    !s.headerOk && s.noImage && !s.checkOk && s.trailer == Trailer(false, Unset, Unset)
  }

  /** A slot that was tried and not started. */
  ghost predicate TriedInVain(c: Config, s: Slot, k: nat, writeOk: bool, s': Slot) {
    if c.revert && (!s.trailer.magicGood || (s.trailer.copyDone == Set && s.trailer.imageOk != Set)) then IsErased(s')
    else if !s.noImage && (k > 0 || c.erasesPrimary) then IsErased(s')
    else StartedFrom(c, s, writeOk, s')
  }

  /** With the revert mechanism the slot is marked as started before it is validated; otherwise it is left alone. */
  ghost predicate StartedFrom(c: Config, s: Slot, writeOk: bool, s': Slot) {
    s' == if c.revert && writeOk && s.trailer.copyDone != Bad(false)
          then s.(trailer := s.trailer.(copyDone := Set)) else s
  }

  /** What becomes of every slot. */
  ghost predicate Outcomes(c: Config, slots: seq<Slot>, used: seq<bool>, writeOk: bool, o: Outcome)
    requires |slots| == |used| == |o.slots| && (o.selected.Some? ==> o.selected.value < |slots|)
  {
    forall j :: 0 <= j < |slots| ==>
      if used[j] && (o.selected.None? || (j != o.selected.value && Before(slots, j, o.selected.value)))
      then TriedInVain(c, slots[j], j, writeOk, o.slots[j])
      else if o.selected == Some(j) then StartedFrom(c, slots[j], writeOk, o.slots[j])
      else o.slots[j] == slots[j]
  }

  /** The first choice failed: the rest of the selection goes on without it. */
  lemma OutcomesWithFirst(c: Config, slots: seq<Slot>, used: seq<bool>, writeOk: bool, b: nat, t: Slot, o: Outcome)
    requires b < |slots| == |used| == |o.slots| && used[b] && FirstGreatest(slots, used, |slots|, b)
    requires t.version == slots[b].version && TriedInVain(c, slots[b], b, writeOk, t)
    requires o.selected.Some? ==> o.selected.value < |slots| && used[o.selected.value] && o.selected.value != b
    requires Outcomes(c, slots[b := t], used[b := false], writeOk, o)
    ensures Outcomes(c, slots, used, writeOk, o)
  {
    if o.selected.Some? { NotBeforeGreatest(slots, used, b, o.selected.value); }
    hide TriedInVain, StartedFrom, FirstGreatest;
    forall j | 0 <= j < |slots| && o.selected.Some?
      ensures Before(slots[b := t], j, o.selected.value) == Before(slots, j, o.selected.value)
    {}
    assert o.slots[b] == t;
  }

  /** The first choice is started: nothing was tried before it. */
  lemma OutcomesWithoutTries(c: Config, slots: seq<Slot>, used: seq<bool>, writeOk: bool, b: nat, t: Slot, rc: int)
    requires b < |slots| == |used| && used[b] && FirstGreatest(slots, used, |slots|, b)
    requires StartedFrom(c, slots[b], writeOk, t)
    ensures Outcomes(c, slots, used, writeOk, Outcome(slots[b := t], Some(b), rc))
  {
    forall j | 0 <= j < |slots| && used[j] && j != b ensures !Before(slots, j, b) {
      NotBeforeGreatest(slots, used, b, j);
    }
    hide TriedInVain, StartedFrom, FirstGreatest, Before;
  }

  lemma {:induction false} SelectOutcomes(c: Config, slots: seq<Slot>, used: seq<bool>, rc: int, writeOk: bool)
    requires |slots| == |used|
    ensures var o := Select(c, slots, used, rc, writeOk);
            Outcomes(c, slots, used, writeOk, o) && (o.selected.Some? ==> used[o.selected.value])
    decreases Count(used)
  {
    hide Outcomes, TriedInVain, StartedFrom, FirstGreatest;
    var best := Newest(slots, used, |slots|);
    if best.None? {
      assert Outcomes(c, slots, used, writeOk, Outcome(slots, None, rc)) by {
        OutcomesOfNone(c, slots, used, writeOk, rc);
      }
    } else {
      var b := best.value;
      NewestIsFirstGreatest(slots, used, |slots|);
      CountDrops(used, b);
      var s := if c.revert then SelectOrErase(slots[b], writeOk) else slots[b];
      if c.revert && Faulty(slots[b]) {
        SelectOutcomes(c, slots[b := Blank(slots[b])], used[b := false], -1, writeOk);
        FaultyInVain(c, slots[b], b, writeOk);
        OutcomesWithFirst(c, slots, used, writeOk, b, Blank(slots[b]),
                          Select(c, slots[b := Blank(slots[b])], used[b := false], -1, writeOk));
      } else {
        HealthyIsMarked(c, slots[b], writeOk);
        if ImageValid(s) {
          OutcomesWithoutTries(c, slots, used, writeOk, b, s,
                               if c.revert then 0 else ScanRc(slots, used, |slots|, rc));
        } else {
          var rc' := if c.revert then 0 else ScanRc(slots, used, |slots|, rc);
          var t := AfterFailedValidation(c, s, b);
          SelectOutcomes(c, slots[b := t], used[b := false], rc', writeOk);
          InvalidInVain(c, slots[b], b, writeOk);
          OutcomesWithFirst(c, slots, used, writeOk, b, t,
                            Select(c, slots[b := t], used[b := false], rc', writeOk));
        }
      }
    }
  }

  lemma OutcomesOfNone(c: Config, slots: seq<Slot>, used: seq<bool>, writeOk: bool, rc: int)
    requires |slots| == |used| && forall k :: 0 <= k < |slots| ==> !used[k]
    ensures Outcomes(c, slots, used, writeOk, Outcome(slots, None, rc))
  {}

  lemma FaultyInVain(c: Config, s: Slot, k: nat, writeOk: bool)
    requires c.revert && Faulty(s)
    ensures TriedInVain(c, s, k, writeOk, Blank(s)) && Blank(s).version == s.version
  {}

  lemma HealthyIsMarked(c: Config, s: Slot, writeOk: bool)
    requires !(c.revert && Faulty(s))
    ensures StartedFrom(c, s, writeOk, if c.revert then SelectOrErase(s, writeOk) else s)
  {}

  lemma InvalidInVain(c: Config, s: Slot, k: nat, writeOk: bool)
    requires !(c.revert && Faulty(s))
    ensures var t := AfterFailedValidation(c, if c.revert then SelectOrErase(s, writeOk) else s, k);
            TriedInVain(c, s, k, writeOk, t) && t.version == s.version
  {
    HealthyIsMarked(c, s, writeOk);
  }

  /**
   What one boot does to every slot: those with a header that come before the chosen one in the order of versions are
   erased if they are faulty or fail validation (slot 0 only where that is allowed), the chosen one is marked with the
   revert mechanism, all others are left alone.
   */
  lemma BootOutcomes(c: Config, slots: seq<Slot>, writeOk: bool)
    ensures Outcomes(c, slots, seq(|slots|, k requires 0 <= k < |slots| => slots[k].headerOk), writeOk,
                     Boot(c, slots, writeOk))
  {
    SelectOutcomes(c, slots, Usage(slots), 0, writeOk);
    assert Usage(slots) == seq(|slots|, k requires 0 <= k < |slots| => slots[k].headerOk);
  }

  // ---------------------------------------------------------------- the return code

  /** Of two candidates slot `j` is chosen before slot `k`. */
  predicate Before(slots: seq<Slot>, j: nat, k: nat)
    requires j < |slots| && k < |slots|
  {
    Cmp(slots, j, k) > 0 || (Cmp(slots, j, k) == 0 && j < k)
  }

  /** Slot `m` is the last candidate among the first `n` slots. */
  predicate LastUsed(used: seq<bool>, n: nat, m: nat)
    requires n <= |used|
  {
    m < n && used[m] && forall j :: m < j < n ==> !used[j]
  }

  predicate Sole(used: seq<bool>, n: nat, k: nat)
    requires n <= |used|
  {
    forall j :: 0 <= j < n && used[j] ==> j == k
  }

  /** The candidate with the highest index that is not chosen before `k` ties with it. */
  predicate LastTies(slots: seq<Slot>, used: seq<bool>, k: nat)
    requires k < |slots| == |used|
  {
    exists m :: k < m < |slots| && used[m] && Cmp(slots, m, k) == 0
                && forall j :: m < j < |slots| && used[j] ==> Before(slots, j, k)
  }

  /** All other candidates are chosen before `k`, and one of them ties with it. */
  predicate FinalTies(slots: seq<Slot>, used: seq<bool>, k: nat)
    requires k < |slots| == |used|
  {
    && (forall j :: 0 <= j < |slots| && used[j] && j != k ==> Before(slots, j, k))
    && exists p :: 0 <= p < |slots| && used[p] && p != k && Cmp(slots, p, k) == 0
  }

  predicate ReportsSuccess(slots: seq<Slot>, used: seq<bool>, k: nat, rc: int)
    requires k < |slots| == |used|
  {
    if Sole(used, |used|, k) then rc == 0 else LastTies(slots, used, k) || FinalTies(slots, used, k)
  }

  /**
   Without the revert mechanism the return code is what the last comparison left.  A boot that chose slot `k` reports
   success exactly if no other header is sane, or the last of the slots not tried before `k` ties with `k` in its
   version, or `k` was the last one left and ties with a slot tried before it.
   */
  lemma ReturnCodeVerdict(c: Config, slots: seq<Slot>, writeOk: bool)
    requires !c.revert
    ensures var o := Boot(c, slots, writeOk);
            o.selected.Some? ==> (o.rc == 0 <==> ReportsSuccess(slots, Usage(slots), o.selected.value, 0))
  {
    SelectRc(c, slots, Usage(slots), 0, writeOk);
  }

  /** For two slots: success is reported if and only if one header is not sane or the two versions are equal. */
  lemma ReturnCodeOfTwoSlots(c: Config, slots: seq<Slot>, writeOk: bool)
    requires |slots| == 2 && !c.revert
    ensures var o := Boot(c, slots, writeOk);
            o.selected.Some? ==>
              (o.rc == 0 <==>
               !(slots[0].headerOk && slots[1].headerOk) || Compare(slots[1].version, slots[0].version) == 0)
  {
    ReturnCodeVerdict(c, slots, writeOk);
    SelectChoosesRight(c, slots, Usage(slots), 0, writeOk);
    CompareIsTotalPreorder(slots[0].version, slots[1].version, slots[0].version);
    hide Boot;
    var o := Boot(c, slots, writeOk);
    if o.selected.Some? { TwoSlotsReport(slots, Usage(slots), o.selected.value); }
  }

  lemma TwoSlotsReport(slots: seq<Slot>, used: seq<bool>, k: nat)
    requires k < |slots| == |used| == 2 && used[k]
    ensures ReportsSuccess(slots, used, k, 0) <==> !(used[0] && used[1]) || Cmp(slots, 1, 0) == 0
  {
    CompareIsTotalPreorder(slots[0].version, slots[1].version, slots[0].version);
    if used[0] && used[1] {
      var p := 1 - k;
      assert used[p] && p != k;
      assert Cmp(slots, p, k) == 0 <==> Cmp(slots, 1, 0) == 0;
    }
  }

  lemma {:induction false} ScanRcUnused(slots: seq<Slot>, used: seq<bool>, n: nat, rc: int)
    requires n <= |slots| == |used| && forall j :: 0 <= j < n ==> !used[j]
    ensures ScanRc(slots, used, n, rc) == rc
  {
    if n > 0 { ScanRcUnused(slots, used, n - 1, rc); }
  }

  /** What the scan leaves in the return code, by the last candidate `m` and the best one. */
  lemma {:induction false} ScanRcIs(slots: seq<Slot>, used: seq<bool>, n: nat, rc: int, m: nat)
    requires n <= |slots| == |used| && LastUsed(used, n, m)
    ensures var b := Newest(slots, used, n).value;
            ScanRc(slots, used, n, rc) ==
            if m != b then Cmp(slots, m, b) else if Sole(used, n, b) then rc else 1
    decreases n
  {
    if m == n - 1 {
      var best := Newest(slots, used, n - 1);
      if best.None? { ScanRcUnused(slots, used, n - 1, rc); }
    } else {
      ScanRcIs(slots, used, n - 1, rc, m);
    }
  }

  lemma {:induction false} SomeLast(used: seq<bool>, n: nat, k: nat) returns (m: nat)
    requires k < n <= |used| && used[k]
    ensures LastUsed(used, n, m) && k <= m
    decreases n
  {
    if used[n - 1] { m := n - 1; } else { m := SomeLast(used, n - 1, k); }
  }

  lemma {:induction false} SelectRc(c: Config, slots: seq<Slot>, used: seq<bool>, rc: int, writeOk: bool)
    requires |slots| == |used| && !c.revert
    ensures var o := Select(c, slots, used, rc, writeOk);
            o.selected.Some? ==>
              used[o.selected.value] && (o.rc == 0 <==> ReportsSuccess(slots, used, o.selected.value, rc))
    decreases Count(used)
  {
    hide Newest, ScanRc, ReportsSuccess, ImageValid;
    var best := Newest(slots, used, |slots|);
    if best.Some? {
      var b := best.value;
      NewestIsFirstGreatest(slots, used, |slots|);
      var rc' := ScanRc(slots, used, |slots|, rc);
      CountDrops(used, b);
      var t := AfterFailedValidation(c, slots[b], b);
      if ImageValid(slots[b]) {
        ChosenAtOnce(slots, used, rc, b);
      } else {
        SelectRc(c, slots[b := t], used[b := false], rc', writeOk);
        var o := Select(c, slots[b := t], used[b := false], rc', writeOk);
        if o.selected.Some? { ChosenLater(slots, slots[b := t], used, rc, b, o.selected.value); }
      }
    }
  }

  lemma ChosenAtOnce(slots: seq<Slot>, used: seq<bool>, rc: int, b: nat)
    requires b < |slots| == |used| && Newest(slots, used, |slots|) == Some(b) && FirstGreatest(slots, used, |slots|, b)
    ensures ScanRc(slots, used, |slots|, rc) == 0 <==> ReportsSuccess(slots, used, b, rc)
  {
    var m := SomeLast(used, |used|, b);
    ScanRcIs(slots, used, |slots|, rc, m);
    hide Newest, ScanRc, Before;
    forall j | 0 <= j < |slots| && used[j] && j != b ensures !Before(slots, j, b) {
      NotBeforeGreatest(slots, used, b, j);
    }
  }

  lemma NotBeforeGreatest(slots: seq<Slot>, used: seq<bool>, b: nat, j: nat)
    requires b < |slots| == |used| && FirstGreatest(slots, used, |slots|, b) && j < |slots| && used[j] && j != b
    ensures !Before(slots, j, b) && Before(slots, b, j)
  {
    CompareIsTotalPreorder(slots[b].version, slots[j].version, slots[b].version);
  }

  /** The first choice `b` failed its check; the code that slot `k` later reports does not depend on it. */
  lemma ChosenLater(slots: seq<Slot>, slots': seq<Slot>, used: seq<bool>, rc: int, b: nat, k: nat)
    requires b < |slots| == |used| && Newest(slots, used, |slots|) == Some(b) && FirstGreatest(slots, used, |slots|, b)
    requires |slots'| == |slots| && (forall j :: 0 <= j < |slots| ==> slots'[j].version == slots[j].version)
    requires k < |slots| && used[k] && k != b
    ensures ReportsSuccess(slots', used[b := false], k, ScanRc(slots, used, |slots|, rc)) <==>
            ReportsSuccess(slots, used, k, rc)
  {
    var used' := used[b := false];
    NotBeforeGreatest(slots, used, b, k);
    SameVersions(slots, slots', used', k);
    hide Newest, ScanRc, FirstGreatest;
    assert used[b] && !Sole(used, |used|, k);
    if Sole(used', |used'|, k) {
      OneLeft(slots, used, rc, b, k);
    } else {
      MoreLeft(slots, used, b, k);
    }
  }

  lemma SameVersions(slots: seq<Slot>, slots': seq<Slot>, used: seq<bool>, k: nat)
    requires |slots'| == |slots| == |used| && (forall j :: 0 <= j < |slots| ==> slots'[j].version == slots[j].version)
    requires k < |slots|
    ensures LastTies(slots', used, k) <==> LastTies(slots, used, k)
    ensures FinalTies(slots', used, k) <==> FinalTies(slots, used, k)
  {
    assert forall i, j :: 0 <= i < |slots| && 0 <= j < |slots| ==> Cmp(slots', i, j) == Cmp(slots, i, j);
  }

  lemma OneLeft(slots: seq<Slot>, used: seq<bool>, rc: int, b: nat, k: nat)
    requires b < |slots| == |used| && k < |slots| && used[k] && k != b && Sole(used[b := false], |used|, k)
    requires Newest(slots, used, |slots|) == Some(b) && Before(slots, b, k)
    ensures ScanRc(slots, used, |slots|, rc) == 0 <==> LastTies(slots, used, k) || FinalTies(slots, used, k)
  {
    CompareIsTotalPreorder(slots[b].version, slots[k].version, slots[b].version);
    assert forall j :: 0 <= j < |used| && used[j] && j != b ==> used[b := false][j];
    var m := SomeLast(used, |used|, if b < k then k else b);
    ScanRcIs(slots, used, |slots|, rc, m);
    assert used[b];
  }

  lemma MoreLeft(slots: seq<Slot>, used: seq<bool>, b: nat, k: nat)
    requires b < |slots| == |used| && k < |slots| && used[k] && k != b && !Sole(used[b := false], |used|, k)
    requires FirstGreatest(slots, used, |slots|, b) && Before(slots, b, k)
    ensures LastTies(slots, used[b := false], k) <==> LastTies(slots, used, k)
    ensures FinalTies(slots, used[b := false], k) <==> FinalTies(slots, used, k)
  {
    var used' := used[b := false];
    assert forall j :: 0 <= j < |used| && j != b ==> used'[j] == used[j];
    if LastTies(slots, used, k) {
      var m :| k < m < |slots| && used[m] && Cmp(slots, m, k) == 0
               && forall j :: m < j < |slots| && used[j] ==> Before(slots, j, k);
      assert used'[m];
    }
    if FinalTies(slots, used, k) {
      var p :| 0 <= p < |slots| && used[p] && p != k && Cmp(slots, p, k) == 0;
      if p != b {
        assert used'[p];
      } else {
        var q :| 0 <= q < |used| && used'[q] && q != k;
        TiedBetween(slots, used, b, k, q);
        assert used'[q] && Cmp(slots, q, k) == 0;
      }
    }
  }

  /** Between the greatest version and an equal one there is no other. */
  lemma TiedBetween(slots: seq<Slot>, used: seq<bool>, b: nat, k: nat, q: nat)
    requires b < |slots| == |used| && FirstGreatest(slots, used, |slots|, b)
    requires k < |slots| && q < |slots| && used[q] && Before(slots, q, k) && Cmp(slots, b, k) == 0
    ensures Cmp(slots, q, k) == 0
  {
    CompareIsTotalPreorder(slots[b].version, slots[q].version, slots[k].version);
    CompareIsTotalPreorder(slots[q].version, slots[k].version, slots[b].version);
  }

  // ---------------------------------------------------------------- revert, over any sequence of boots

  /** What happens to the board: a boot, an image confirming itself, a new image arriving in a slot. */
  datatype Event = BootOnce(writeOk: bool) | Confirm(k: nat) | Install(k: nat, s: Slot)

  /** `started[k]` says whether the image in slot `k` was handed control since it was installed. */
  datatype World = World(slots: seq<Slot>, started: seq<bool>)
  {
    predicate Valid() { |slots| == |started| }
  }

  function Step(c: Config, w: World, e: Event): (w': World)
    requires w.Valid()
    ensures w'.Valid() && |w'.slots| == |w.slots|
  {
    match e
    case BootOnce(writeOk) =>
      var o := Boot(c, w.slots, writeOk);
      World(o.slots, seq(|w.slots|, k requires 0 <= k < |w.slots| =>
        if o.selected == Some(k) then true else o.slots[k].headerOk && w.started[k]))
    case Confirm(k) =>
      if k < |w.slots| then
        var t := w.slots[k].trailer;
        w.(slots := w.slots[k := w.slots[k].(trailer := t.(imageOk := Programmed(t.imageOk)))])
      else w
    case Install(k, s) =>
      if k < |w.slots| then World(w.slots[k := s], w.started[k := false]) else w
  }

  function After(c: Config, w: World, events: seq<Event>): (w': World)
    requires w.Valid()
    ensures w'.Valid() && |w'.slots| == |w.slots|
    decreases |events|
  {
    if |events| == 0 then w else Step(c, After(c, w, events[..|events| - 1]), events[|events| - 1])
  }

  /** After the boot the copy-done flag of the slot it chose reads as set. */
  predicate MarkReads(c: Config, slots: seq<Slot>, writeOk: bool) {
    var o := Boot(c, slots, writeOk);
    o.selected.Some? ==> o.slots[o.selected.value].trailer.copyDone.Set?
  }

  /** Every boot of the run leaves a mark that reads as set. */
  predicate MarksRead(c: Config, w: World, events: seq<Event>)
    requires w.Valid()
    decreases |events|
  {
    |events| > 0 ==>
      var n := |events| - 1;
      && MarksRead(c, w, events[..n])
      && (events[n].BootOnce? ==> MarkReads(c, After(c, w, events[..n]).slots, events[n].writeOk))
  }

  /** An image that was started carries the mark, unless it has confirmed itself. */
  ghost predicate Marked(w: World)
    requires w.Valid()
  {
    forall k :: 0 <= k < |w.slots| && w.started[k] ==>
      w.slots[k].trailer.copyDone.Set? || w.slots[k].trailer.imageOk.Set?
  }

  lemma StepKeepsMarked(c: Config, w: World, e: Event)
    requires c.revert && w.Valid() && Marked(w) && (e.BootOnce? ==> MarkReads(c, w.slots, e.writeOk))
    ensures Marked(Step(c, w, e))
  {
    if e.BootOnce? {
      var o := Boot(c, w.slots, e.writeOk);
      forall k | 0 <= k < |w.slots| && Step(c, w, e).started[k]
        ensures o.slots[k].trailer.copyDone.Set? || o.slots[k].trailer.imageOk.Set?
      {
        SelectTreatsFairly(c, w.slots, Usage(w.slots), 0, e.writeOk, k);
      }
    }
  }

  lemma {:induction false} RunKeepsMarked(c: Config, w: World, events: seq<Event>)
    requires c.revert && w.Valid() && Marked(w) && MarksRead(c, w, events)
    ensures Marked(After(c, w, events))
    decreases |events|
  {
    if |events| > 0 {
      RunKeepsMarked(c, w, events[..|events| - 1]);
      StepKeepsMarked(c, After(c, w, events[..|events| - 1]), events[|events| - 1]);
    }
  }

  /** Over any run whose marks read back as set, an image is started again only if it has confirmed itself. */
  lemma UnconfirmedStartsOnce(c: Config, w: World, events: seq<Event>, writeOk: bool)
    requires c.revert && w.Valid() && Marked(w) && MarksRead(c, w, events)
    ensures var v := After(c, w, events);
            var o := Boot(c, v.slots, writeOk);
            o.selected.Some? && v.started[o.selected.value] ==> Confirmed(v.slots[o.selected.value])
  {
    RunKeepsMarked(c, w, events);
    BootChoosesNewest(c, After(c, w, events).slots, writeOk);
  }

  /**
   The record is right: an image handed control at event `i` and neither replaced nor erased since counts as started.
   */
  lemma {:induction false} StartIsRecorded(c: Config, w: World, events: seq<Event>, i: nat, j: nat, k: nat)
    requires w.Valid() && i < j <= |events| && k < |w.slots|
    requires events[i].BootOnce? && Boot(c, After(c, w, events[..i]).slots, events[i].writeOk).selected == Some(k)
    requires forall m :: i < m < |events| && events[m].Install? ==> events[m].k != k
    ensures After(c, w, events[..j]).started[k] || !After(c, w, events[..j]).slots[k].headerOk
    decreases j
  {
    hide Boot, Step;
    assert events[..j][..j - 1] == events[..j - 1];
    if j == i + 1 {
      StartRecords(c, After(c, w, events[..i]), events[i], k);
    } else {
      StartIsRecorded(c, w, events, i, j - 1, k);
      StepKeepsRecord(c, After(c, w, events[..j - 1]), events[j - 1], k);
    }
  }

  lemma StartRecords(c: Config, w: World, e: Event, k: nat)
    requires w.Valid() && e.BootOnce? && Boot(c, w.slots, e.writeOk).selected == Some(k)
    ensures k < |w.slots| && Step(c, w, e).started[k]
  {}

  lemma StepKeepsRecord(c: Config, w: World, e: Event, k: nat)
    requires w.Valid() && k < |w.slots| && (w.started[k] || !w.slots[k].headerOk) && (e.Install? ==> e.k != k)
    ensures Step(c, w, e).started[k] || !Step(c, w, e).slots[k].headerOk
  {
    if e.BootOnce? { SelectTreatsFairly(c, w.slots, Usage(w.slots), 0, e.writeOk, k); }
  }

  /** The image that was started bears a mark, unless it has confirmed itself or is gone. */
  predicate Remembered(s: Slot) {
    s.trailer.copyDone.Set? || s.trailer.imageOk.Set? || !s.headerOk
  }

  lemma {:induction false} MarksReadPrefix(c: Config, w: World, events: seq<Event>, i: nat)
    requires w.Valid() && MarksRead(c, w, events) && i <= |events|
    ensures MarksRead(c, w, events[..i])
    ensures i < |events| && events[i].BootOnce? ==> MarkReads(c, After(c, w, events[..i]).slots, events[i].writeOk)
    decreases |events|
  {
    hide MarkReads, After;
    var n := |events| - 1;
    if i < n {
      MarksReadPrefix(c, w, events[..n], i);
      assert events[..n][..i] == events[..i];
    } else if i > n {
      assert events[..i] == events;
    }
  }

  lemma StepRemembers(c: Config, w: World, e: Event, k: nat)
    requires c.revert && w.Valid() && k < |w.slots| && Remembered(w.slots[k]) && (e.Install? ==> e.k != k)
    ensures Remembered(Step(c, w, e).slots[k])
  {
    if e.BootOnce? { SelectTreatsFairly(c, w.slots, Usage(w.slots), 0, e.writeOk, k); }
  }

  lemma {:induction false} RunRemembers(c: Config, w: World, events: seq<Event>, i: nat, j: nat, k: nat)
    requires c.revert && w.Valid() && i < j <= |events| && k < |w.slots| && MarksRead(c, w, events)
    requires events[i].BootOnce? && Boot(c, After(c, w, events[..i]).slots, events[i].writeOk).selected == Some(k)
    requires forall m :: i < m < |events| && events[m].Install? ==> events[m].k != k
    ensures Remembered(After(c, w, events[..j]).slots[k])
    decreases j
  {
    hide Remembered, Boot, Step, MarkReads, MarksRead;
    assert events[..j][..j - 1] == events[..j - 1];
    if j == i + 1 {
      MarksReadPrefix(c, w, events, i);
      FirstStartIsMarked(c, After(c, w, events[..i]), events[i], k);
    } else {
      RunRemembers(c, w, events, i, j - 1, k);
      StepRemembers(c, After(c, w, events[..j - 1]), events[j - 1], k);
    }
  }

  lemma FirstStartIsMarked(c: Config, w: World, e: Event, k: nat)
    requires w.Valid() && e.BootOnce? && MarkReads(c, w.slots, e.writeOk)
    requires Boot(c, w.slots, e.writeOk).selected == Some(k)
    ensures Remembered(Step(c, w, e).slots[k])
  {}

  /**
   The law of the revert mechanism over any run whose marks read back: between two starts of the same slot, with no new
   image installed there in between, the image has confirmed itself.
   */
  lemma SecondStartIsConfirmed(c: Config, w: World, events: seq<Event>, i: nat, k: nat, writeOk: bool)
    requires c.revert && w.Valid() && i < |events| && k < |w.slots| && MarksRead(c, w, events)
    requires events[i].BootOnce? && Boot(c, After(c, w, events[..i]).slots, events[i].writeOk).selected == Some(k)
    requires forall m :: i < m < |events| && events[m].Install? ==> events[m].k != k
    requires Boot(c, After(c, w, events).slots, writeOk).selected == Some(k)
    ensures After(c, w, events).slots[k].trailer.magicGood && After(c, w, events).slots[k].trailer.imageOk == Set
  {
    RunRemembers(c, w, events, i, |events|, k);
    assert events[..|events|] == events;
    BootedImageIsStartable(c, After(c, w, events).slots, writeOk);
  }

  /** A confirmed valid image survives every boot, and as long as there is one every boot starts a valid image. */
  lemma ConfirmedSurvives(c: Config, slots: seq<Slot>, writeOk: bool, k: nat)
    requires c.revert && k < |slots| && Confirmed(slots[k]) && ImageValid(slots[k])
    ensures var o := Boot(c, slots, writeOk);
            && o.selected.Some? && ImageValid(slots[o.selected.value])
            && Confirmed(o.slots[k]) && ImageValid(o.slots[k]) && o.slots[k].version == slots[k].version
  {
    BootChoosesNewest(c, slots, writeOk);
    assert FairlyTreated(c, slots[k], Boot(c, slots, writeOk).slots[k]);
  }

  /** Boots and confirmations never lose a confirmed valid image, however many there are. */
  lemma {:induction false} ConfirmedIsNeverErased(c: Config, w: World, events: seq<Event>, k: nat)
    requires c.revert && w.Valid() && k < |w.slots| && Confirmed(w.slots[k]) && ImageValid(w.slots[k])
    requires forall i :: 0 <= i < |events| ==> !events[i].Install? || events[i].k != k
    ensures var s := After(c, w, events).slots[k];
            Confirmed(s) && ImageValid(s) && s.version == w.slots[k].version
    decreases |events|
  {
    if |events| > 0 {
      var before := events[..|events| - 1];
      ConfirmedIsNeverErased(c, w, before, k);
      var e := events[|events| - 1];
      if e.BootOnce? { ConfirmedSurvives(c, After(c, w, before).slots, e.writeOk, k); }
    }
  }

  /**
   The mark decides: after a boot has started an unconfirmed image that carried none, an immediate second boot starts
   the same image again if and only if the copy-done write failed or found a bad flag that it could not set.
   */
  lemma CopyDoneWriteDecides(c: Config, slots: seq<Slot>, writeOk: bool, again: bool)
    requires c.revert
    requires var o := Boot(c, slots, writeOk);
             o.selected.Some? && !Confirmed(slots[o.selected.value]) && !slots[o.selected.value].trailer.copyDone.Set?
    ensures var o := Boot(c, slots, writeOk);
            Boot(c, o.slots, again).selected == o.selected <==>
            !writeOk || slots[o.selected.value].trailer.copyDone == Bad(false)
  {
    var o := Boot(c, slots, writeOk);
    var k := o.selected.value;
    BootChoosesNewest(c, slots, writeOk);
    BootChoosesNewest(c, o.slots, again);
    SelectedSlotIsMarked(c, slots, Usage(slots), 0, writeOk);
    if writeOk && slots[k].trailer.copyDone != Bad(false) {
      assert !Passes(c, o.slots[k]);
    } else {
      assert o.slots[k] == slots[k];
      SameChoiceAgain(c, slots, o.slots, k, writeOk, again);
    }
  }

  /** A boot that changed nothing about the chosen slot is followed by one with the same choice. */
  lemma SameChoiceAgain(c: Config, slots: seq<Slot>, slots': seq<Slot>, k: nat, writeOk: bool, again: bool)
    requires var o := Boot(c, slots, writeOk); o.slots == slots' && o.selected == Some(k)
    requires slots'[k] == slots[k]
    ensures Boot(c, slots', again).selected == Some(k)
  {
    BootChoosesNewest(c, slots, writeOk);
    BootChoosesNewest(c, slots', again);
    forall j | 0 <= j < |slots| && Passes(c, slots'[j])
      ensures Passes(c, slots[j]) && slots'[j].version == slots[j].version
    {
      assert FairlyTreated(c, slots[j], slots'[j]);
    }
    var m := Boot(c, slots', again).selected.value;
    CompareIsTotalPreorder(slots[k].version, slots[m].version, slots[k].version);
  }

  // ---------------------------------------------------------------- the loop itself

  lemma {:induction false} CountSome(used: seq<bool>)
    requires Count(used) > 0
    ensures exists k :: 0 <= k < |used| && used[k]
    decreases |used|
  {
    if |used| > 0 && !used[|used| - 1] {
      CountSome(used[..|used| - 1]);
      var k :| 0 <= k < |used| - 1 && used[..|used| - 1][k];
      assert used[k];
    }
  }

  /** `boot_get_slot_usage`. */
  method SlotUsage(slots: array<Slot>) returns (used: seq<bool>, imageCnt: nat)
    ensures used == Usage(slots[..]) && imageCnt == Count(used)
  {
    used, imageCnt := [], 0;
    for slot := 0 to slots.Length
      invariant used == Usage(slots[..slot]) && imageCnt == Count(used)
    {
      var inUse := slots[slot].headerOk;
      assert (used + [inUse])[..slot] == used;
      used := used + [inUse];
      if inUse { imageCnt := imageCnt + 1; }
    }
    assert slots[..slots.Length] == slots[..];
  }

  /** The scan for the newest image; `rc` is left at the last comparison. */
  method ScanNewest(slots: array<Slot>, used: seq<bool>, rc0: int) returns (selected: Option<nat>, rc: int)
    requires |used| == slots.Length
    ensures selected == Newest(slots[..], used, slots.Length) && rc == ScanRc(slots[..], used, slots.Length, rc0)
  {
    selected, rc := None, rc0;
    for slot := 0 to slots.Length
      invariant selected == Newest(slots[..], used, slot) && rc == ScanRc(slots[..], used, slot, rc0)
    {
      if used[slot] {
        if selected.Some? {
          rc := Compare(slots[slot].version, slots[selected.value].version);
          if rc < 1 { continue; }
        }
        selected := Some(slot);
      }
    }
  }

  /** The selection loop of `context_boot_go` in direct-XIP builds: `rsp` is the slot in the response. */
  method ContextBootGo(c: Config, slots: array<Slot>, writeOk: bool) returns (rsp: Option<nat>, success: bool)
    modifies slots
    ensures var o := Boot(c, old(slots[..]), writeOk);
            slots[..] == o.slots && rsp == o.selected && (success <==> o.selected.Some? && o.rc == 0)
  {
    hide Select, SelectOrErase, AfterFailedValidation, ImageValid, Faulty;
    ghost var o := Boot(c, slots[..], writeOk);
    var used, imageCnt := SlotUsage(slots);
    var rc, i := 0, 0;
    rsp := None;
    while i < imageCnt
      invariant 0 <= i <= imageCnt && |used| == slots.Length && Count(used) == imageCnt - i
      invariant o == Select(c, slots[..], used, rc, writeOk) && rsp.None?
    {
      ghost var rc0, was := rc, slots[..];
      var selected: Option<nat>;
      selected, rc := ScanNewest(slots, used, rc);
      CountSome(used);
      var k := selected.value;
      CountDrops(used, k);
      SelectUnfolds(c, slots[..], used, rc0, writeOk);
      i := i + 1;
      if c.revert {
        var faulty := Faulty(slots[k]);
        slots[k] := SelectOrErase(slots[k], writeOk);
        rc := if faulty then -1 else 0;
        if faulty {
          assert slots[..] == was[k := slots[k]];
          used := used[k := false];
          continue;
        }
      }
      if ImageValid(slots[k]) {
        rsp := selected;
        assert slots[..] == was[k := slots[k]];
        assert o == Outcome(slots[..], rsp, rc);
        break;
      }
      slots[k] := AfterFailedValidation(c, slots[k], k);
      assert slots[..] == was[k := slots[k]];
      used := used[k := false];
    }
    if rsp.None? {
      NoneLeft(used);
      SelectEnds(c, slots[..], used, rc, writeOk);
      assert o == Outcome(slots[..], rsp, rc);
    }
    success := rsp.Some? && rc == 0;
  }

  lemma {:induction false} NoneLeft(used: seq<bool>)
    requires Count(used) == 0
    ensures forall k :: 0 <= k < |used| ==> !used[k]
    decreases |used|
  {
    if |used| > 0 { NoneLeft(used[..|used| - 1]); }
  }

  lemma SelectEnds(c: Config, slots: seq<Slot>, used: seq<bool>, rc: int, writeOk: bool)
    requires |slots| == |used| && forall k :: 0 <= k < |used| ==> !used[k]
    ensures Select(c, slots, used, rc, writeOk) == Outcome(slots, None, rc)
  {}

  /** One round of the selection, written out for the loop. */
  lemma SelectUnfolds(c: Config, slots: seq<Slot>, used: seq<bool>, rc: int, writeOk: bool)
    requires |slots| == |used| && Newest(slots, used, |slots|).Some?
    ensures var k := Newest(slots, used, |slots|).value;
            var s := if c.revert then SelectOrErase(slots[k], writeOk) else slots[k];
            var rc' := if c.revert then (if Faulty(slots[k]) then -1 else 0) else ScanRc(slots, used, |slots|, rc);
            Select(c, slots, used, rc, writeOk) ==
            if c.revert && Faulty(slots[k]) then Select(c, slots[k := s], used[k := false], rc', writeOk)
            else if ImageValid(s) then Outcome(slots[k := s], Some(k), rc')
            else Select(c, slots[k := AfterFailedValidation(c, s, k)], used[k := false], rc', writeOk)
  {}
}
