/**
 How the boot loader settles, for several images at once, which of them to swap: the review of earlier decisions while
 the images are examined one by one, and then the check of the dependencies between them.
 */
module SwapTypes {
  import opened Versions

  datatype SwapType = NoSwap | Test | Perm | Revert | Fail | Panic

  predicate IsUpgrade(t: SwapType) {
    t.Test? || t.Perm? || t.Revert?
  }

  datatype Slot = Primary | Secondary

  /** One entry of an image's dependency TLVs, as reading it from flash turns out. */
  datatype TlvItem = Dependency(imageId: nat, minVersion: Version) | IterError | BadLength | ReadError

  /** The dependency TLVs of the image in one slot; `Unreadable` if the area or its TLV header cannot be read. */
  datatype TlvList = Unreadable | Items(items: seq<TlvItem>)

  datatype Image = Image(version: Version, dependencies: TlvList)

  /** What examining one image finds: an aborted swap, a swap type, or slots that rule a swap out. */
  datatype Finding = Aborted | Found(t: SwapType) | Unusable

  /** The slot an image with this swap type boots from. */
  function BootSlot(t: SwapType): Slot {
    if IsUpgrade(t) then Secondary else Primary
  }

  /** The slot whose dependencies are checked. */
  function CheckedSlot(t: SwapType): Slot {
    if t.NoSwap? || t.Fail? then Primary else Secondary
  }

  function InSlot(images: seq<(Image, Image)>, i: nat, slot: Slot): Image
    requires i < |images|
  {
    if slot.Primary? then images[i].0 else images[i].1
  }

  /** The dependency is met by the version its subject will have after the boot. */
  predicate Met(images: seq<(Image, Image)>, swap: seq<SwapType>, item: TlvItem)
    requires |swap| == |images|
  {
    && item.Dependency? && item.imageId < |images|
    && Compare(InSlot(images, item.imageId, BootSlot(swap[item.imageId])).version, item.minVersion) >= 0
  }

  predicate AllMet(images: seq<(Image, Image)>, swap: seq<SwapType>, list: TlvList)
    requires |swap| == |images|
  {
    list.Items? && forall k :: 0 <= k < |list.items| ==> Met(images, swap, list.items[k])
  }

  /** Every dependency of every checked slot is met. */
  predicate Consistent(images: seq<(Image, Image)>, swap: seq<SwapType>)
    requires |swap| == |images|
  {
    forall i :: 0 <= i < |images| ==> AllMet(images, swap, InSlot(images, i, CheckedSlot(swap[i])).dependencies)
  }

  /** The image neither stays in place nor reverts: it is upgraded, or was found faulty. */
  predicate Forward(t: SwapType) {
    !t.NoSwap? && !t.Revert?
  }

  lemma ForwardIs(t: SwapType)
    ensures Forward(t) <==> t.Test? || t.Perm? || t.Fail? || t.Panic?
  {}

  /** What the review sees to: no image reverts that comes before one that moves forward. */
  ghost predicate NoEarlierRevert(swap: seq<SwapType>) {
    forall i, j :: 0 <= i < j < |swap| && swap[i].Revert? ==>
      !swap[j].Test? && !swap[j].Perm? && !swap[j].Fail? && !swap[j].Panic?
  }

  /** What the review is for: images move in the same direction or stay in place. */
  ghost predicate OneDirection(swap: seq<SwapType>) {
    forall i, j :: 0 <= i < |swap| && 0 <= j < |swap| && swap[i].Revert? ==>
      !swap[j].Test? && !swap[j].Perm? && !swap[j].Fail? && !swap[j].Panic?
  }

  /** Image `j` makes the loader review the earlier images. */
  predicate Reviews(f: Finding) {
    f.Aborted? || (f.Found? && Forward(f.t))
  }

  /** What remains of the finding for image `i` once the images up to `n` have been examined. */
  ghost function Settled(findings: seq<Finding>, i: nat, n: nat): SwapType
    requires i < n <= |findings|
  {
    if !findings[i].Found? then NoSwap
    else if findings[i].t.Revert? && (exists j :: i < j < n && Reviews(findings[j])) then NoSwap
    else findings[i].t
  }

  ghost function SettledAll(findings: seq<Finding>): seq<SwapType> {
    seq(|findings|, i requires 0 <= i < |findings| => Settled(findings, i, |findings|))
  }

  predicate AsksUpgrade(f: Finding) {
    f.Found? && IsUpgrade(f.t)
  }

  /** The swap types after both phases. */
  ghost function Decided(images: seq<(Image, Image)>, findings: seq<Finding>): seq<SwapType>
    requires |findings| == |images|
  {
    if (exists i :: 0 <= i < |findings| && AsksUpgrade(findings[i])) && !Consistent(images, SettledAll(findings))
    then seq(|images|, _ => NoSwap)
    else SettledAll(findings)
  }

  class LoaderState {
    const images: seq<(Image, Image)>
    const swap: array<SwapType>

    ghost predicate Valid() {
      swap.Length == |images|
    }

    constructor (images: seq<(Image, Image)>, swap: array<SwapType>)
      requires swap.Length == |images|
      ensures Valid() && this.images == images && this.swap == swap
    {
      this.images, this.swap := images, swap;
    }

    /** `boot_verify_slot_dependency`: an unmet dependency also lowers the swap type of the image that has it. */
    method VerifySlotDependency(current: nat, dep: TlvItem) returns (rc: int)
      requires Valid() && current < |images| && dep.Dependency? && dep.imageId < |images|
      modifies swap
      ensures rc == 0 <==> Met(images, old(swap[..]), dep)
      ensures rc == 0 ==> swap[..] == old(swap[..])
      ensures forall i :: 0 <= i < swap.Length && i != current ==> swap[i] == old(swap[i])
      ensures rc != 0 ==> swap[current] == match old(swap[current]) { case Test => NoSwap case Perm => NoSwap
                                                                       case NoSwap => Revert case t => t }
    {
      var slot := BootSlot(swap[dep.imageId]);
      rc := Compare(InSlot(images, dep.imageId, slot).version, dep.minVersion);
      if rc < 0 {
        match swap[current]
        case Test => swap[current] := NoSwap;
        case Perm => swap[current] := NoSwap;
        case NoSwap => swap[current] := Revert;
        case _ =>
      } else {
        rc := 0;
      }
    }

    /** `boot_verify_slot_dependencies`. */
    method VerifySlotDependencies(current: nat, slot: Slot) returns (rc: int)
      requires Valid() && current < |images|
      modifies swap
      ensures rc == 0 <==> AllMet(images, old(swap[..]), InSlot(images, current, slot).dependencies)
      ensures rc == 0 ==> swap[..] == old(swap[..])
    {
      var list := InSlot(images, current, slot).dependencies;
      if list.Unreadable? { return -1; }
      var k := 0;
      while k < |list.items|
        invariant 0 <= k <= |list.items|
        invariant forall m :: 0 <= m < k ==> Met(images, old(swap[..]), list.items[m])
        invariant swap[..] == old(swap[..])
      {
        var item := list.items[k];
        if !item.Dependency? || item.imageId >= |images| { return -1; }
        rc := VerifySlotDependency(current, item);
        if rc != 0 { return; }
        k := k + 1;
      }
      rc := 0;
    }

    /** `boot_verify_dependencies`: either nothing changes and everything is met, or every upgrade is called off. */
    method VerifyDependencies() returns (rc: int)
      requires Valid()
      modifies swap
      ensures rc == 0 <==> |images| > 0 && Consistent(images, old(swap[..]))
      ensures rc == 0 ==> swap[..] == old(swap[..])
      ensures rc != 0 ==> forall i :: 0 <= i < swap.Length ==> swap[i] == NoSwap
    {
      rc := -1;
      var current := 0;
      while current < |images|
        invariant 0 <= current <= |images| && swap[..] == old(swap[..])
        invariant rc == if current == 0 then -1 else 0
        invariant forall i :: 0 <= i < current ==>
                    AllMet(images, swap[..], InSlot(images, i, CheckedSlot(swap[i])).dependencies)
      {
        var t := swap[current];
        rc := VerifySlotDependencies(current, CheckedSlot(t));
        if rc != 0 {
          forall idx | 0 <= idx < swap.Length { swap[idx] := NoSwap; }
          return;
        }
        current := current + 1;
      }
    }

    /** `boot_review_image_swap_types`. */
    method Review(current: nat, aborted: bool)
      requires Valid() && current < |images|
      modifies swap
      ensures forall i :: current <= i < swap.Length ==> swap[i] == old(swap[i])
      ensures forall i :: 0 <= i < current ==>
                swap[i] == if old(swap[i]).Revert? && (aborted || Forward(old(swap[current])))
                           then NoSwap else old(swap[i])
    {
      if current == 0 { return; }
      if !aborted && (swap[current].NoSwap? || swap[current].Revert?) { return; }
      var i := 0;
      while i < current
        invariant 0 <= i <= current
        invariant forall k :: 0 <= k < i ==> swap[k] == if old(swap[k]).Revert? then NoSwap else old(swap[k])
        invariant forall k :: i <= k < swap.Length ==> swap[k] == old(swap[k])
      {
        if swap[i].Revert? { swap[i] := NoSwap; }
        i := i + 1;
      }
    }

    /** The swap-type part of `boot_prepare_image_for_update`, in builds without bootstrapping. */
    method PrepareImage(current: nat, f: Finding)
      requires Valid() && current < |images|
      modifies swap
      ensures swap[current] == if f.Found? then f.t else NoSwap
      ensures forall i :: current < i < swap.Length ==> swap[i] == old(swap[i])
      ensures forall i :: 0 <= i < current ==>
                swap[i] == if old(swap[i]).Revert? && Reviews(f) then NoSwap else old(swap[i])
    {
      match f
      case Unusable => swap[current] := NoSwap;
      case Aborted =>
        Review(current, true);
        swap[current] := NoSwap;
      case Found(t) =>
        swap[current] := t;
        Review(current, false);
    }

    /** The first image loop of `context_boot_go`, and whether any image asked for an upgrade along the way. */
    method PrepareImages(findings: seq<Finding>) returns (hasUpgrade: bool)
      requires Valid() && |findings| == |images|
      modifies swap
      ensures swap[..] == SettledAll(findings)
      ensures NoEarlierRevert(swap[..])
      ensures hasUpgrade <==> exists i :: 0 <= i < |findings| && AsksUpgrade(findings[i])
    {
      hasUpgrade := false;
      var current := 0;
      while current < |images|
        invariant 0 <= current <= |images|
        invariant forall i :: 0 <= i < current ==> swap[i] == Settled(findings, i, current)
        invariant hasUpgrade <==> exists i :: 0 <= i < current && AsksUpgrade(findings[i])
      {
        PrepareImage(current, findings[current]);
        if IsUpgrade(swap[current]) { hasUpgrade := true; }
        SettleOneMore(findings, current);
        current := current + 1;
      }
      assert swap[..] == SettledAll(findings);
      SettledNoEarlierRevert(findings);
    }

    /** Both phases: what the loader goes on to carry out. */
    method DecideSwaps(findings: seq<Finding>)
      requires Valid() && |findings| == |images|
      modifies swap
      ensures swap[..] == Decided(images, findings)
      ensures NoEarlierRevert(swap[..])
      ensures (exists i :: 0 <= i < swap.Length && IsUpgrade(swap[i])) ==> Consistent(images, swap[..])
    {
      var hasUpgrade := PrepareImages(findings);
      if hasUpgrade {
        var rc := VerifyDependencies();
        if rc != 0 { assert swap[..] == seq(|images|, _ => NoSwap); }
      }
    }
  }

  lemma SettleOneMore(findings: seq<Finding>, n: nat)
    requires n < |findings|
    ensures forall i :: 0 <= i < n ==>
              Settled(findings, i, n + 1) ==
              if Settled(findings, i, n).Revert? && Reviews(findings[n]) then NoSwap else Settled(findings, i, n)
    ensures Settled(findings, n, n + 1) == if findings[n].Found? then findings[n].t else NoSwap
  {
    forall i | 0 <= i < n
      ensures Settled(findings, i, n + 1) ==
              if Settled(findings, i, n).Revert? && Reviews(findings[n]) then NoSwap else Settled(findings, i, n)
    {
      if exists j :: i < j < n + 1 && Reviews(findings[j]) {
        var j :| i < j < n + 1 && Reviews(findings[j]);
        assert j == n || (i < j < n && Reviews(findings[j]));
      }
    }
  }

  /**
   Exactly which reverts remain after the first loop, in what is found: those that no later image calls off, by an
   aborted swap or by a swap type of its own other than a revert.
   */
  lemma RevertRemainsIff(findings: seq<Finding>, i: nat)
    requires i < |findings|
    ensures SettledAll(findings)[i] == Revert <==>
            && findings[i] == Found(Revert)
            && forall j :: i < j < |findings| ==>
                 !findings[j].Aborted? && findings[j] !in {Found(Test), Found(Perm), Found(Fail), Found(Panic)}
    ensures SettledAll(findings)[i] != Revert && findings[i] != Found(Revert) ==>
            SettledAll(findings)[i] == if findings[i].Found? then findings[i].t else NoSwap
  {
    forall j | 0 <= j < |findings|
      ensures Reviews(findings[j]) <==>
              findings[j].Aborted? || findings[j] in {Found(Test), Found(Perm), Found(Fail), Found(Panic)}
    {
      if findings[j].Found? { ForwardIs(findings[j].t); }
    }
    hide Reviews, Forward;
  }

  lemma SettledNoEarlierRevert(findings: seq<Finding>)
    ensures NoEarlierRevert(SettledAll(findings))
  {
    var swap := SettledAll(findings);
    forall i, j | 0 <= i < j < |swap| && Forward(swap[j]) ensures !swap[i].Revert? {
      assert Reviews(findings[j]);
    }
  }

  /** Image `i` moves forward, and a later image `j` is found to revert. */
  predicate RevertAfterForward(findings: seq<Finding>, i: nat, j: nat) {
    i < j < |findings| && findings[i].Found? && Forward(findings[i].t) && findings[j] == Found(Revert)
  }

  /** Every revert that is found after an image that moves forward is called off by a still later image. */
  ghost predicate LaterRevertsReviewed(findings: seq<Finding>) {
    forall i, j :: 0 <= i < j && RevertAfterForward(findings, i, j) ==>
      exists k :: j < k < |findings| && Reviews(findings[k])
  }

  /** The exact condition for the first image loop to leave all images moving in one direction. */
  lemma DirectionVerdict(findings: seq<Finding>)
    ensures OneDirection(SettledAll(findings)) <==> LaterRevertsReviewed(findings)
  {
    var swap := SettledAll(findings);
    SettledNoEarlierRevert(findings);
    if OneDirection(swap) {
      forall i, j | 0 <= i < j && RevertAfterForward(findings, i, j)
        ensures exists k :: j < k < |findings| && Reviews(findings[k])
      {
        assert Forward(swap[i]) && !swap[j].Revert?;
      }
    } else {
      var i, j :| 0 <= i < |swap| && 0 <= j < |swap| && swap[i].Revert? && Forward(swap[j]);
      ForwardIs(swap[j]);
      assert j < i && RevertAfterForward(findings, j, i);
    }
  }

  /** And for both phases: they also do when a dependency is not met, since then nothing moves. */
  lemma DecidedDirectionVerdict(images: seq<(Image, Image)>, findings: seq<Finding>)
    requires |findings| == |images|
    ensures OneDirection(Decided(images, findings)) <==>
            LaterRevertsReviewed(findings) || !Consistent(images, SettledAll(findings))
  {
    DirectionVerdict(findings);
    if !LaterRevertsReviewed(findings) {
      var i, j :| 0 <= i < j && RevertAfterForward(findings, i, j)
                  && !exists k :: j < k < |findings| && Reviews(findings[k]);
      assert AsksUpgrade(findings[j]);
    }
  }

  /** The condition can fail: a test of the first image and a revert of the second are carried out together. */
  lemma TestBeforeRevertIsKept(images: seq<(Image, Image)>)
    requires |images| == 2
    requires forall i :: 0 <= i < 2 ==> images[i].1.dependencies == Items([])
    ensures Decided(images, [Found(Test), Found(Revert)]) == [Test, Revert] && !OneDirection([Test, Revert])
  {
    var findings := [Found(Test), Found(Revert)];
    assert SettledAll(findings) == [Test, Revert];
    assert [Test, Revert][1].Revert? && Forward([Test, Revert][0]);
  }

  /** After a successful check, whatever boots from a slot finds all its dependencies at the version it asks for. */
  lemma BootedDependenciesMet(images: seq<(Image, Image)>, swap: seq<SwapType>, i: nat, k: nat)
    requires i < |images| == |swap| && Consistent(images, swap) && !swap[i].Panic?
    requires var list := InSlot(images, i, BootSlot(swap[i])).dependencies; list.Items? && k < |list.items|
    ensures Met(images, swap, InSlot(images, i, BootSlot(swap[i])).dependencies.items[k])
  {
    CheckedSlotIsBooted(swap[i]);
    assert AllMet(images, swap, InSlot(images, i, CheckedSlot(swap[i])).dependencies);
  }

  /** Exactly when a dependency is met, in what the two slots of its subject hold; an equal version is enough. */
  lemma MetIff(images: seq<(Image, Image)>, swap: seq<SwapType>, d: TlvItem)
    requires |images| == |swap|
    ensures Met(images, swap, d) <==>
            && d.Dependency? && d.imageId < |images|
            && var subject := images[d.imageId];
               var version := if swap[d.imageId] in {Test, Perm, Revert} then subject.1.version else subject.0.version;
               Compare(version, d.minVersion) != -1
  {
    if d.Dependency? && d.imageId < |images| {
      var subject := images[d.imageId];
      var version := if swap[d.imageId] in {Test, Perm, Revert} then subject.1.version else subject.0.version;
      CompareIsTotalPreorder(version, d.minVersion, version);
    }
  }

  /**
   The same in what the two slots of an image hold: an image that is tested, made permanent or reverted boots from its
   second slot, any other one from its first, and so does the subject of each of its dependencies.
   */
  lemma BootedVersionsSuffice(images: seq<(Image, Image)>, swap: seq<SwapType>, i: nat, k: nat)
    requires i < |images| == |swap| && Consistent(images, swap) && swap[i] != Panic
    requires var list := if swap[i] in {Test, Perm, Revert} then images[i].1.dependencies else images[i].0.dependencies;
             list.Items? && k < |list.items|
    ensures var list := if swap[i] in {Test, Perm, Revert} then images[i].1.dependencies else images[i].0.dependencies;
            var d := list.items[k];
            && d.Dependency? && d.imageId < |images|
            && var subject := images[d.imageId];
               var version := if swap[d.imageId] in {Test, Perm, Revert} then subject.1.version else subject.0.version;
               Compare(version, d.minVersion) >= 0
  {
    BootedDependenciesMet(images, swap, i, k);
  }

  /**
   The slot whose dependencies are checked is the slot that is booted, except for an image that makes the loader panic.
   */
  lemma CheckedSlotIsBooted(t: SwapType)
    ensures CheckedSlot(t) == BootSlot(t) <==> !t.Panic?
  {}
}
