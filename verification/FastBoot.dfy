/**
 The fast form of the overwrite upgrade as a whole: the plan it carries out, computed from the secondary slot as the
 code computes it, and the same power-failure theorems as for the plain form.
 */
module FastBoot {
  import opened Bytes
  import opened Overwrite
  import opened FastOverwrite

  /** The write size, the size of the trailer, the bytes of the magic, and how the image size is read from a slot. */
  datatype FastConfig = FastConfig(
    base: Config, writeSz: nat, trailerSz: nat, magic: seq<Byte>, srcSize: seq<Byte> -> nat)
  {
    predicate Sane() {
      base.HasSectors() && writeSz > 0 && |magic| <= base.Size()
    }
  }

  /** The erase under the trailer: from the sector the trailer loop stops at to the end of the slot. */
  function TrailerErase(c: FastConfig): Op
    requires c.Sane()
  {
    var sectors := c.base.sectors;
    var off := SectorOff(sectors, TrailerFirst(sectors, c.trailerSz, |sectors| - 1));
    Erase(Primary, off, Rest(c, off))
  }

  /** What precedes the retirement of the secondary slot: erase, erase under the trailer, copy, write the magic. */
  function InstallPlanFor(c: FastConfig, src: nat): seq<Op>
    requires c.Sane()
  {
    FastPlan(c.base.sectors, EraseCount(c.base.sectors, src, 1), TrailerErase(c),
             CopyLength(c.base.sectors, src, c.writeSz))
    + [Program(c.base.Size() - |c.magic|, c.magic)]
  }

  function InstallPlan(c: FastConfig, secondary: seq<Byte>): seq<Op>
    requires c.Sane()
  {
    InstallPlanFor(c, c.srcSize(secondary))
  }

  /** From `off` to the end of the slot. */
  function Rest(c: FastConfig, off: nat): nat {
    if off <= c.base.Size() then c.base.Size() - off else 0
  }

  function FastBootPlan(c: FastConfig, f: Flash): seq<Op>
    requires c.Sane()
  {
    if Pending(c.base, f.secondary) then InstallPlan(c, f.secondary) + RetirePlan(c.base)
    else BootPlan(c.base, f)
  }

  function FastBoot(c: FastConfig, f: Flash): Flash
    requires c.Sane() && SameSize(f)
  {
    ApplyAll(FastBootPlan(c, f), f)
  }

  /** `f'` is what a reset leaves when it strikes, anywhere, a boot that started from `f`. */
  ghost predicate FastInterrupted(c: FastConfig, f: Flash, f': Flash)
    requires c.Sane() && SameSize(f)
  {
    exists k :: Struck(FastBootPlan(c, f), f, k, f')
  }

  ghost predicate AfterFastResets(c: FastConfig, f: Flash, n: nat, f': Flash)
    requires c.Sane() && SameSize(f)
    decreases n
  {
    if n == 0 then f' == f
    else exists m :: SameSize(m) && AfterFastResets(c, f, n - 1, m) && FastInterrupted(c, m, f')
  }

  /**
   The image is one that the fast form is for: its size is read from its own bytes, the copy ends inside the slot, and
   the image ends before the magic.
   */
  ghost predicate Suits(c: FastConfig, image: seq<Byte>)
    requires c.Sane()
  {
    && (forall s :: Holds(s, image) ==> c.srcSize(s) == |image|)
    && CopyLength(c.base.sectors, |image|, c.writeSz) <= c.base.Size()
    && |image| + |c.magic| <= c.base.Size()
  }

  // ---------------------------------------------------------------- what the plan does

  lemma {:induction false} EraseCountCovers(sectors: seq<nat>, srcSize: nat, k: nat)
    requires 0 < k <= |sectors| && srcSize <= SectorOff(sectors, |sectors|)
    ensures srcSize <= SectorOff(sectors, EraseCount(sectors, srcSize, k))
    decreases |sectors| - k
  {
    if k < |sectors| && SectorOff(sectors, k) < srcSize { EraseCountCovers(sectors, srcSize, k + 1); }
  }

  /** The prefix that ends before `off` does not see what is programmed from there on. */
  lemma ProgramKeepsPrefix(s: seq<Byte>, image: seq<Byte>, off: nat, data: seq<Byte>)
    requires Holds(s, image) && |image| <= off
    ensures Holds(Programmed(s, off, data), image)
  {}

  lemma HoldsIsPrefix(s: seq<Byte>, t: seq<Byte>, image: seq<Byte>)
    requires Holds(t, image) && SameBytes(s, 0, t, 0, |image|)
    ensures Holds(s, image)
  {}

  lemma SuitedSize(c: FastConfig, image: seq<Byte>, s: seq<Byte>)
    requires c.Sane() && Suits(c, image) && Holds(s, image)
    ensures c.srcSize(s) == |image| <= CopyLength(c.base.sectors, |image|, c.writeSz) <= c.base.Size()
    ensures |image| + |c.magic| <= c.base.Size()
  {}

  lemma PlanInstalls(c: FastConfig, image: seq<Byte>, f: Flash)
    requires c.Sane() && Suits(c, image) && |f.primary| == |f.secondary| == c.base.Size() && Holds(f.secondary, image)
    ensures var g := ApplyAll(InstallPlan(c, f.secondary), f);
            Holds(g.primary, image) && g.secondary == f.secondary && SameSize(g)
  {
    SuitedSize(c, image, f.secondary);
    hide Suits, Holds, ApplyAll, InstallPlanFor;
    SizedPlanInstalls(c, image, f);
  }

  lemma SizedPlanInstalls(c: FastConfig, image: seq<Byte>, f: Flash)
    requires c.Sane() && |f.primary| == |f.secondary| == c.base.Size() && Holds(f.secondary, image)
    requires |image| <= CopyLength(c.base.sectors, |image|, c.writeSz) <= c.base.Size()
    requires |image| + |c.magic| <= c.base.Size()
    ensures var g := ApplyAll(InstallPlanFor(c, |image|), f);
            Holds(g.primary, image) && g.secondary == f.secondary && SameSize(g)
  {
    hide FastPlan, ApplyAll, Holds, CopyLength, EraseCount, TrailerFirst, SectorOff;
    var sectors, trailer := c.base.sectors, TrailerErase(c);
    EraseCountCovers(sectors, |image|, 1);
    StepsInstall(sectors, EraseCount(sectors, |image|, 1), trailer.off, trailer.sz,
                 CopyLength(sectors, |image|, c.writeSz), c.base.Size() - |c.magic|, c.magic, f, image);
  }

  lemma StepsInstall(sectors: seq<nat>, k: nat, off: nat, sz: nat, size: nat, at: nat, magic: seq<Byte>, f: Flash,
                     image: seq<Byte>)
    requires k <= |sectors| && SameSize(f) && |f.primary| == SectorOff(sectors, |sectors|) && Holds(f.secondary, image)
    requires |image| <= size <= |f.primary| && |image| <= SectorOff(sectors, k) && |image| <= at
    ensures var g := ApplyAll(FastPlan(sectors, k, Erase(Primary, off, sz), size) + [Program(at, magic)], f);
            Holds(g.primary, image) && g.secondary == f.secondary && SameSize(g)
  {
    hide FastPlan, ApplyAll, Holds, SameBytes;
    var plan := FastPlan(sectors, k, Erase(Primary, off, sz), size);
    FastInstallsImage(sectors, k, off, sz, |image|, size, f);
    var g := ApplyAll(plan, f);
    HoldsIsPrefix(g.primary, f.secondary, image);
    ApplyOneMore(plan, Program(at, magic), f);
    ProgramKeepsPrefix(g.primary, image, at, magic);
  }

  lemma InstallSparesSecondary(c: FastConfig, secondary: seq<Byte>)
    requires c.Sane()
    ensures var plan := InstallPlan(c, secondary); forall i | 0 <= i < |plan| :: !Touches(plan[i], Secondary)
  {
    var sectors, src := c.base.sectors, c.srcSize(secondary);
    FastSparesSecondary(sectors, EraseCount(sectors, src, 1), TrailerErase(c), CopyLength(sectors, src, c.writeSz));
  }

  lemma RetireSparesPrimary(c: Config)
    requires c.HasSectors()
    ensures forall i :: 0 <= i < |RetirePlan(c)| ==> !Touches(RetirePlan(c)[i], Primary)
  {}

  // ---------------------------------------------------------------- resets

  /** A reset that strikes an upgrade finds the secondary slot intact or the image installed. */
  lemma ResetDuringInstall(c: FastConfig, image: seq<Byte>, f: Flash, k: nat, f': Flash)
    requires c.Sane() && Suits(c, image) && |f.primary| == |f.secondary| == c.base.Size() && Holds(f.secondary, image)
    requires Struck(InstallPlan(c, f.secondary) + RetirePlan(c.base), f, k, f')
    ensures f'.secondary == f.secondary || Holds(f'.primary, image)
  {
    hide Struck, InstallPlan, RetirePlan, ApplyAll, Touches, Holds, Suits;
    var install, retire := InstallPlan(c, f.secondary), RetirePlan(c.base);
    StruckInPart(install, retire, f, k, f');
    if k < |install| {
      InstallSparesSecondary(c, f.secondary);
      ResetSparesSlot(install, f, k, f', Secondary);
    } else {
      PlanInstalls(c, image, f);
      RetireSparesPrimary(c.base);
      ResetSparesSlot(retire, ApplyAll(install, f), k - |install|, f', Primary);
    }
  }

  lemma FastResetKeepsSafe(c: FastConfig, s0: seq<Byte>, image: seq<Byte>, f: Flash, f': Flash)
    requires c.Sane() && Suits(c, image) && DetectsDamage(c.base, s0, image) && Safe(c.base, s0, image, f)
    requires FastInterrupted(c, f, f')
    ensures Safe(c.base, s0, image, f')
  {
    hide Struck, BitsOnlySet, InstallPlan, Suits;
    var k :| Struck(FastBootPlan(c, f), f, k, f');
    ResetKeepsBits(FastBootPlan(c, f), f, k, f', s0);
    SameLength(s0, f.secondary);
    SameLength(s0, f'.secondary);
    if Pending(c.base, f.secondary) {
      ResetDuringInstall(c, image, f, k, f');
    } else {
      ResetSparesSlot(BootPlan(c.base, f), f, k, f', Primary);
    }
  }

  /** After any number of resets, at any point of any operation of the fast form, a slot still holds the whole image. */
  lemma {:induction false} FastPowerFailSafe(c: FastConfig, image: seq<Byte>, f: Flash, n: nat, f': Flash)
    requires c.Sane() && Suits(c, image) && |f.primary| == |f.secondary| == c.base.Size()
    requires Holds(f.secondary, image) && Pending(c.base, f.secondary)
    requires DetectsDamage(c.base, f.secondary, image)
    requires AfterFastResets(c, f, n, f')
    ensures Safe(c.base, f.secondary, image, f')
    ensures Holds(f'.primary, image) || Holds(f'.secondary, image)
    decreases n
  {
    hide FastInterrupted, Pending, DetectsDamage, Suits;
    if n == 0 {
      assert BitsOnlySet(f.secondary, f.secondary);
    } else {
      var m :| SameSize(m) && AfterFastResets(c, f, n - 1, m) && FastInterrupted(c, m, f');
      FastPowerFailSafe(c, image, f, n - 1, m);
      FastResetKeepsSafe(c, f.secondary, image, m, f');
    }
  }

  lemma FastCleanBootInstalls(c: FastConfig, s0: seq<Byte>, image: seq<Byte>, f: Flash)
    requires c.Sane() && Suits(c, image) && DetectsDamage(c.base, s0, image) && Safe(c.base, s0, image, f)
    ensures Holds(FastBoot(c, f).primary, image)
  {
    hide InstallPlan, Suits;
    if Pending(c.base, f.secondary) {
      var install, retire := InstallPlan(c, f.secondary), RetirePlan(c.base);
      PlanInstalls(c, image, f);
      ApplyConcat(install, retire, f);
      RetireSparesPrimary(c.base);
      UntouchedSlot(retire, ApplyAll(install, f), Primary);
    } else {
      UntouchedSlot(BootPlan(c.base, f), f, Primary);
    }
  }

  /** And the first boot that is not interrupted ends with the image in the primary slot. */
  lemma FirstFastBootInstalls(c: FastConfig, image: seq<Byte>, f: Flash, n: nat, f': Flash)
    requires c.Sane() && Suits(c, image) && |f.primary| == |f.secondary| == c.base.Size()
    requires Holds(f.secondary, image) && Pending(c.base, f.secondary)
    requires DetectsDamage(c.base, f.secondary, image)
    requires AfterFastResets(c, f, n, f')
    ensures SameSize(f') && Holds(FastBoot(c, f').primary, image)
  {
    hide FastBoot, DetectsDamage, Pending, FastInterrupted, Holds, Suits;
    FastPowerFailSafe(c, image, f, n, f');
    FastCleanBootInstalls(c, f.secondary, image, f');
  }

  // ---------------------------------------------------------------- one boot, byte by byte

  /** Without a request, without an image, or with one that fails its check, the fast form boots as the plain one. */
  lemma FastBootOtherwise(c: FastConfig, f: Flash)
    requires c.Sane() && |f.primary| == |f.secondary| == c.base.Size()
    ensures !c.base.requested(f.secondary) || c.base.noImage(f.secondary) ==> FastBoot(c, f) == f
    ensures c.base.requested(f.secondary) && !c.base.noImage(f.secondary) && !c.base.valid(f.secondary) ==>
              var g := FastBoot(c, f);
              && g.primary == f.primary && |g.secondary| == |f.secondary|
              && forall i :: 0 <= i < |f.secondary| ==> g.secondary[i] == 0xFF
  {
    if !c.base.requested(f.secondary) || c.base.noImage(f.secondary) {
      NothingRequestedNothingDone(c.base, f);
    } else if !c.base.valid(f.secondary) {
      InvalidImageIsErased(c.base, f);
    }
    hide ApplyAll, BootPlan, InstallPlan;
  }

  /** A requested image that passes its check is installed, and the secondary slot loses its first and last sector. */
  lemma FastBootInstalls(c: FastConfig, image: seq<Byte>, f: Flash)
    requires c.Sane() && Suits(c, image) && |f.primary| == |f.secondary| == c.base.Size() && image <= f.secondary
    requires c.base.requested(f.secondary) && !c.base.noImage(f.secondary) && c.base.valid(f.secondary)
    ensures image <= FastBoot(c, f).primary && Retired(c.base, f.secondary, FastBoot(c, f).secondary)
  {
    hide InstallPlan, RetirePlan, Suits, ApplyAll;
    var install, retire := InstallPlan(c, f.secondary), RetirePlan(c.base);
    PlanInstalls(c, image, f);
    var g := ApplyAll(install, f);
    ApplyConcat(install, retire, f);
    RetireSparesPrimary(c.base);
    UntouchedSlot(retire, g, Primary);
    RetireRetires(c.base, g);
  }

  lemma RetireRetires(c: Config, f: Flash)
    requires c.HasSectors() && SameSize(f)
    ensures Retired(c, f.secondary, ApplyAll(RetirePlan(c), f).secondary)
  {
    hide ApplyAll;
    ApplyTwo(RetirePlan(c), f);
  }

  // ---------------------------------------------------------------- the code

  /** `boot_copy_image` in its fast form, up to the magic. */
  method Install(d: FlashDevice, c: FastConfig)
    requires d.Valid() && c.Sane() && c.base.Size() == d.primary.Length && c.trailerSz <= c.base.Size()
    requires CopyLength(c.base.sectors, c.srcSize(d.secondary[..]), c.writeSz) <= c.base.Size()
    modifies d`log, d.primary, d.secondary
    ensures d.log == old(d.log) + InstallPlan(c, old(d.secondary[..]))
    ensures d.View() == ApplyAll(InstallPlan(c, old(d.secondary[..])), old(d.View()))
  {
    hide ApplyAll, Apply, CopyLength, EraseCount, TrailerFirst, ErasePlan, CopyPlan, RetirePlan;
    ghost var start, secondary := d.View(), d.secondary[..];
    var sectors := c.base.sectors;
    var size, erased := EraseForImage(d, sectors, c.srcSize(d.secondary[..]), c.writeSz);
    var region := TrailerSectors(sectors, c.trailerSz);
    var (_, off, sz) := region.value;
    var trailer := Erase(Primary, off, sz);
    ApplyOneMore(ErasePlan(sectors, erased), trailer, start);
    d.EraseRegion(Primary, off, sz);
    d.CopyRegion(size);
    ghost var plan := FastPlan(sectors, erased, trailer, size);
    ApplyConcat(ErasePlan(sectors, erased) + [trailer], CopyPlan(Buffers(size), size), start);
    var magic := Program(c.base.Size() - |c.magic|, c.magic);
    ApplyOneMore(plan, magic, start);
    d.ProgramRegion(c.base.Size() - |c.magic|, c.magic);
    assert plan + [magic] == InstallPlan(c, secondary);
  }

  /** `boot_copy_image` in its fast form: the operations it performs are, one by one, those of the plan. */
  method CopyImageFast(d: FlashDevice, c: FastConfig)
    requires d.Valid() && c.Sane() && c.base.Size() == d.primary.Length && c.trailerSz <= c.base.Size()
    requires CopyLength(c.base.sectors, c.srcSize(d.secondary[..]), c.writeSz) <= c.base.Size()
    modifies d`log, d.primary, d.secondary
    ensures d.log == old(d.log) + InstallPlan(c, old(d.secondary[..])) + RetirePlan(c.base)
    ensures d.View() == ApplyAll(InstallPlan(c, old(d.secondary[..])) + RetirePlan(c.base), old(d.View()))
  {
    hide ApplyAll, RetirePlan, InstallPlan, CopyLength;
    ghost var start, secondary := d.View(), d.secondary[..];
    Install(d, c);
    d.RetireSecondary(c.base);
    ApplyConcat(InstallPlan(c, secondary), RetirePlan(c.base), start);
  }
}
