/**
 The fast form of the overwrite upgrade: only the sectors under the new image are erased, and only the image is
 copied, rounded up to the write size; the sectors under the old trailer are erased apart.
 */
module FastOverwrite {
  import opened Bytes
  import opened Overwrite

  predicate Aligned(sectors: seq<nat>, writeSz: nat)
    requires writeSz > 0
  {
    forall k :: 0 <= k < |sectors| ==> sectors[k] > 0 && sectors[k] % writeSz == 0
  }

  /** `n` is the least multiple of `w` strictly above `x`. */
  ghost predicate NextMultiple(n: int, w: nat, x: nat)
    requires w > 0
  {
    n % w == 0 && n - w <= x < n
  }

  /** `size` rounded up past itself, to the next multiple of the write size. */
  function NextWrite(size: nat, w: nat): (n: nat)
    requires w > 0
    ensures NextMultiple(n, w, size)
  {
    RoundsUp(size, w);
    size + (w - size % w)
  }

  /** How many sectors the image of `srcSize` bytes takes, counting from `k`; all of them if it is too large. */
  function EraseCount(sectors: seq<nat>, srcSize: nat, k: nat): (r: nat)
    requires 0 < k <= |sectors|
    ensures k <= r <= |sectors|
    decreases |sectors| - k
  {
    if k == |sectors| || SectorOff(sectors, k) >= srcSize then k else EraseCount(sectors, srcSize, k + 1)
  }

  /** How many bytes are copied. */
  function CopyLength(sectors: seq<nat>, srcSize: nat, writeSz: nat): nat
    requires writeSz > 0
  {
    if srcSize <= SectorOff(sectors, |sectors|) then NextWrite(srcSize, writeSz) else SectorOff(sectors, |sectors|)
  }

  /** The erase loop: what it erases, how many bytes it has copied then, and when the copy outruns the erase. */
  method EraseForImage(d: FlashDevice, sectors: seq<nat>, srcSize: nat, writeSz: nat) returns (size: nat, erased: nat)
    requires |sectors| > 0 && writeSz > 0 && d.Valid() && SectorOff(sectors, |sectors|) == d.primary.Length
    modifies d`log, d.primary, d.secondary
    ensures erased == EraseCount(sectors, srcSize, 1) && size == CopyLength(sectors, srcSize, writeSz)
    ensures d.log == old(d.log) + ErasePlan(sectors, erased)
    ensures d.View() == ApplyAll(ErasePlan(sectors, erased), old(d.View()))
    ensures 0 < erased <= |sectors| && (erased > 1 ==> SectorOff(sectors, erased - 1) < srcSize)
    ensures srcSize <= SectorOff(sectors, |sectors|) ==>
              && NextMultiple(size, writeSz, srcSize) && srcSize <= SectorOff(sectors, erased)
              && (Aligned(sectors, writeSz) ==>
                    (size <= SectorOff(sectors, erased) <==> srcSize != SectorOff(sectors, erased)))
    ensures srcSize > SectorOff(sectors, |sectors|) ==> erased == |sectors| && size == SectorOff(sectors, |sectors|)
  {
    hide NextWrite, NextMultiple, Aligned, ApplyAll, Apply;
    ApplyNothing(d.View());
    size, erased := 0, 0;
    var sect := 0;
    while sect < |sectors|
      invariant 0 <= sect <= |sectors| && size == SectorOff(sectors, sect) && erased == sect
      invariant sect > 0 ==> size < srcSize
      invariant sect > 1 ==> SectorOff(sectors, sect - 1) < srcSize
      invariant sect < |sectors| ==> EraseCount(sectors, srcSize, 1) == EraseCount(sectors, srcSize, sect + 1)
      invariant sect == |sectors| ==> EraseCount(sectors, srcSize, 1) == sect
      invariant d.log == old(d.log) + ErasePlan(sectors, sect)
      invariant d.View() == ApplyAll(ErasePlan(sectors, sect), old(d.View()))
    {
      var thisSize := sectors[sect];
      SectorsFit(sectors, sect);
      ApplyOneMore(ErasePlan(sectors, sect), Erase(Primary, size, thisSize), old(d.View()));
      d.EraseRegion(Primary, size, thisSize);
      if size + thisSize >= srcSize {
        erased := sect + 1;
        ImageFits(sectors, erased, srcSize, writeSz);
        size := NextWrite(srcSize, writeSz);
        return;
      }
      size := size + thisSize;
      sect := sect + 1;
      erased := sect;
    }
  }

  lemma ImageFits(sectors: seq<nat>, k: nat, srcSize: nat, w: nat)
    requires w > 0 && 0 < k <= |sectors| && srcSize <= SectorOff(sectors, k)
    ensures srcSize <= SectorOff(sectors, |sectors|)
    ensures NextMultiple(NextWrite(srcSize, w), w, srcSize)
    ensures Aligned(sectors, w) ==>
              (NextWrite(srcSize, w) <= SectorOff(sectors, k) <==> srcSize != SectorOff(sectors, k))
  {
    SectorsFit(sectors, k - 1);
    if Aligned(sectors, w) { StaysInside(sectors, k, srcSize, w); }
  }

  lemma RoundsUp(x: nat, w: nat)
    requires w > 0
    ensures NextMultiple(x + (w - x % w), w, x)
  {
    var q := x / w;
    assert x + (w - x % w) == (q + 1) * w;
    MultipleModulo(q + 1, w);
  }

  lemma ProductSize(k: int, w: int)
    requires w >= 0
    ensures k >= 1 ==> k * w >= w
    ensures k <= -1 ==> k * w <= -w
  {
    if k >= 1 {
      assert k * w == (k - 1) * w + w;
    } else if k <= -1 {
      assert k * w == (k + 1) * w - w;
    }
  }

  lemma MultipleModulo(q: int, w: nat)
    requires w > 0
    ensures (q * w) % w == 0
  {
    var d := (q * w) / w;
    assert (q - d) * w == (q * w) % w;
    ProductSize(q - d, w);
  }

  lemma {:induction false} BoundariesAligned(sectors: seq<nat>, w: nat, k: nat)
    requires w > 0 && Aligned(sectors, w) && k <= |sectors|
    ensures SectorOff(sectors, k) % w == 0
  {
    if k > 0 {
      BoundariesAligned(sectors, w, k - 1);
      SumOfMultiples(SectorOff(sectors, k - 1), sectors[k - 1], w);
    }
  }

  lemma SumOfMultiples(a: nat, b: nat, w: nat)
    requires w > 0 && a % w == 0 && b % w == 0
    ensures (a + b) % w == 0
  {
    var p, q := a / w, b / w;
    assert a + b == (p + q) * w;
    MultipleModulo(p + q, w);
  }

  /** Rounded up past itself, a size fits below an aligned boundary unless it is that boundary. */
  lemma StaysInside(sectors: seq<nat>, k: nat, x: nat, w: nat)
    requires w > 0 && k <= |sectors| && Aligned(sectors, w) && x <= SectorOff(sectors, k)
    ensures NextWrite(x, w) <= SectorOff(sectors, k) <==> x != SectorOff(sectors, k)
  {
    BoundariesAligned(sectors, w, k);
    MultiplesApart(x, NextWrite(x, w), SectorOff(sectors, k), w);
  }

  lemma MultiplesApart(x: nat, n: nat, end: nat, w: nat)
    requires w > 0 && NextMultiple(n, w, x) && x <= end && end % w == 0
    ensures n <= end <==> x != end
  {
    var p, q := n / w, end / w;
    assert n == p * w && end == q * w;
    assert n - end == (p - q) * w;
    ProductSize(p - q, w);
  }

  /** The sector the trailer loop stops at, counting down from `k`. */
  function TrailerFirst(sectors: seq<nat>, trailerSz: nat, k: nat): (r: nat)
    requires k < |sectors|
    ensures r <= k
  {
    if k == 0 || SectorOff(sectors, |sectors|) - SectorOff(sectors, k) >= trailerSz then k
    else TrailerFirst(sectors, trailerSz, k - 1)
  }

  /**
   The trailer loop walks down from the last sector.  It ends inside the slot exactly when the trailer fits there, and
   then it has found the smallest run of sectors at the end of the slot that covers the trailer.
   */
  method TrailerSectors(sectors: seq<nat>, trailerSz: nat) returns (region: Option<(nat, nat, nat)>)
    requires |sectors| > 0
    ensures region.Some? <==> trailerSz <= SectorOff(sectors, |sectors|)
    ensures region.Some? ==>
              var (first, off, sz) := region.value;
              && first == TrailerFirst(sectors, trailerSz, |sectors| - 1)
              && first < |sectors| && off == SectorOff(sectors, first) && off + sz == SectorOff(sectors, |sectors|)
              && trailerSz <= sz && (first + 1 < |sectors| ==> sz - sectors[first] < trailerSz)
  {
    var sector, sz := |sectors| - 1, sectors[|sectors| - 1];
    while sz < trailerSz
      invariant 0 <= sector < |sectors| && SectorOff(sectors, sector) + sz == SectorOff(sectors, |sectors|)
      invariant sector + 1 < |sectors| ==> sz - sectors[sector] < trailerSz
      invariant TrailerFirst(sectors, trailerSz, |sectors| - 1) == TrailerFirst(sectors, trailerSz, sector)
      decreases sector
    {
      if sector == 0 {
        return None;  // the sector index wraps around below zero
      }
      sector := sector - 1;
      sz := sz + sectors[sector];
    }
    return Some((sector, SectorOff(sectors, sector), sz));
  }

  /** Everything the fast form does to the primary slot before it writes the magic. */
  function FastPlan(sectors: seq<nat>, k: nat, trailer: Op, size: nat): seq<Op>
    requires k <= |sectors|
  {
    ErasePlan(sectors, k) + [trailer] + CopyPlan(Buffers(size), size)
  }

  lemma FastPlanResult(sectors: seq<nat>, k: nat, off: nat, sz: nat, size: nat, f: Flash)
    requires k <= |sectors| && SameSize(f) && |f.primary| == SectorOff(sectors, |sectors|) && size <= |f.primary|
    ensures var p := Erased(Erased(f.primary, 0, SectorOff(sectors, k)), off, sz);
            ApplyAll(FastPlan(sectors, k, Erase(Primary, off, sz), size), f)
            == f.(primary := Written(p, f.secondary, 0, size))
  {
    hide ApplyAll, ErasePlan, CopyPlan, Written;
    var e := ErasePlan(sectors, k);
    EraseSectors(sectors, k, f);
    ApplyOneMore(e, Erase(Primary, off, sz), f);
    ApplyConcat(e + [Erase(Primary, off, sz)], CopyPlan(Buffers(size), size), f);
    var p := Erased(Erased(f.primary, 0, SectorOff(sectors, k)), off, sz);
    CopyBuffers(Buffers(size), size, f.(primary := p));
  }

  /** The bytes of a slot that was erased in two places and then written from the start. */
  lemma WrittenAfterErases(s: seq<Byte>, data: seq<Byte>, end: nat, off: nat, sz: nat, size: nat, i: nat)
    requires |s| == |data| && i < |s|
    ensures |Erased(Erased(s, 0, end), off, sz)| == |s|
    ensures |Written(Erased(Erased(s, 0, end), off, sz), data, 0, size)| == |s|
    ensures Written(Erased(Erased(s, 0, end), off, sz), data, 0, size)[i]
            == if i < end || Inside(i, off, sz) then (if i < size then data[i] else ERASED)
               else if i < size then s[i] & data[i] else s[i]
  {
    hide Erased, Written;
    ErasedAt(s, 0, end, i);
    ErasedAt(Erased(s, 0, end), off, sz, i);
    WrittenAt(Erased(Erased(s, 0, end), off, sz), data, 0, size, i);
    AndErased(data[i]);
  }

  lemma ErasedAt(s: seq<Byte>, off: nat, sz: nat, i: nat)
    requires i < |s|
    ensures |Erased(s, off, sz)| == |s| && Erased(s, off, sz)[i] == if Inside(i, off, sz) then ERASED else s[i]
  {}

  lemma WrittenAt(s: seq<Byte>, data: seq<Byte>, off: nat, sz: nat, i: nat)
    requires i < |s| == |data|
    ensures |Written(s, data, off, sz)| == |s|
    ensures Written(s, data, off, sz)[i] == if Inside(i, off, sz) then s[i] & data[i] else s[i]
  {}

  /**
   The image arrives whole wherever the slot was erased first; elsewhere the copy can only clear bits.  Together with
   `EraseForImage`, whose erased end is at or after the image's end, the image itself is always intact.
   */
  lemma FastCopiesImage(sectors: seq<nat>, k: nat, off: nat, sz: nat, size: nat, f: Flash, i: nat)
    requires k <= |sectors| && SameSize(f) && i < |f.primary| == SectorOff(sectors, |sectors|) && size <= |f.primary|
    ensures var g := ApplyAll(FastPlan(sectors, k, Erase(Primary, off, sz), size), f);
            && g.secondary == f.secondary
            && g.primary[i] == if i < SectorOff(sectors, k) || Inside(i, off, sz) then
                                 (if i < size then f.secondary[i] else ERASED)
                               else if i < size then f.primary[i] & f.secondary[i] else f.primary[i]
  {
    hide ApplyAll, FastPlan, Written, Erased;
    FastPlanResult(sectors, k, off, sz, size, f);
    WrittenAfterErases(f.primary, f.secondary, SectorOff(sectors, k), off, sz, size, i);
  }

  /** So an image that ends inside the erased sectors, as `EraseForImage` has it, is there whole afterwards. */
  lemma FastInstallsImage(sectors: seq<nat>, k: nat, off: nat, sz: nat, srcSize: nat, size: nat, f: Flash)
    requires k <= |sectors| && SameSize(f) && |f.primary| == SectorOff(sectors, |sectors|)
    requires srcSize <= size <= |f.primary| && srcSize <= SectorOff(sectors, k)
    ensures var g := ApplyAll(FastPlan(sectors, k, Erase(Primary, off, sz), size), f);
            g.secondary == f.secondary && SameBytes(g.primary, 0, f.secondary, 0, srcSize)
  {
    var g := ApplyAll(FastPlan(sectors, k, Erase(Primary, off, sz), size), f);
    assert SameSize(g) && |g.primary| == |f.primary|;
    hide ApplyAll, FastPlan;
    FastPlanResult(sectors, k, off, sz, size, f);
    forall i | 0 <= i < srcSize ensures g.primary[i] == f.secondary[i] {
      FastCopiesImage(sectors, k, off, sz, size, f, i);
    }
  }

  lemma FastSparesSecondary(sectors: seq<nat>, k: nat, trailer: Op, size: nat)
    requires k <= |sectors| && !Touches(trailer, Secondary)
    ensures forall i :: 0 <= i < |FastPlan(sectors, k, trailer, size)| ==>
              !Touches(FastPlan(sectors, k, trailer, size)[i], Secondary)
  {
    ErasesSpareSecondary(sectors, k);
    CopiesSpareSecondary(Buffers(size), size);
  }
}
