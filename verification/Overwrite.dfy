/**
 The overwrite-only upgrade of the boot loader, on NOR flash: an erase sets bits, a write clears bits, and a reset
 may strike in the middle of either.  A boot is a plan of flash operations computed from what the flash holds.
 */
module Overwrite {
  import opened Bytes

  datatype Slot = Primary | Secondary

  /** The contents of the two image slots, which have the same size. */
  datatype Flash = Flash(primary: seq<Byte>, secondary: seq<Byte>)

  /** `Copy` reads the secondary slot and writes the primary one, at the same offset; `Program` writes `data` there. */
  datatype Op = Erase(slot: Slot, off: nat, sz: nat) | Copy(off: nat, sz: nat) | Program(off: nat, data: seq<Byte>)

  /**
   The sector sizes of a slot, and the verdicts that are not part of this model: `requested` reads the swap request
   in the secondary slot's trailer, `noImage` is an erased header or a non-bootable flag, `valid` is the header and
   hash check.
   */
  datatype Config = Config(
    sectors: seq<nat>,
    requested: seq<Byte> -> bool,
    noImage: seq<Byte> -> bool,
    valid: seq<Byte> -> bool)
  {
    predicate HasSectors() { |sectors| > 0 && Size() > 0 }
    function Size(): nat { SectorOff(sectors, |sectors|) }
  }

  function BufOff(k: nat): nat {
    1024 * k
  }

  function SectorOff(sectors: seq<nat>, k: nat): nat
    requires k <= |sectors|
  {
    if k == 0 then 0 else SectorOff(sectors, k - 1) + sectors[k - 1]
  }

  // ---------------------------------------------------------------- flash operations

  predicate Inside(i: int, off: nat, sz: nat) {
    off <= i < off + sz
  }

  function Erased(s: seq<Byte>, off: nat, sz: nat): (r: seq<Byte>) {
    seq(|s|, i requires 0 <= i < |s| => if Inside(i, off, sz) then ERASED else s[i])
  }

  function Written(s: seq<Byte>, data: seq<Byte>, off: nat, sz: nat): (r: seq<Byte>)
    requires |s| == |data|
  {
    seq(|s|, i requires 0 <= i < |s| => if Inside(i, off, sz) then s[i] & data[i] else s[i])
  }

  function Programmed(s: seq<Byte>, off: nat, data: seq<Byte>): (r: seq<Byte>) {
    seq(|s|, i requires 0 <= i < |s| => if Inside(i, off, |data|) then s[i] & data[i - off] else s[i])
  }

  predicate SameSize(f: Flash) {
    |f.primary| == |f.secondary|
  }

  function Apply(op: Op, f: Flash): (r: Flash)
    requires SameSize(f)
    ensures SameSize(r) && |r.primary| == |f.primary|
  {
    match op
    case Erase(Primary, off, sz) => f.(primary := Erased(f.primary, off, sz))
    case Erase(Secondary, off, sz) => f.(secondary := Erased(f.secondary, off, sz))
    case Copy(off, sz) => f.(primary := Written(f.primary, f.secondary, off, sz))
    case Program(off, data) => f.(primary := Programmed(f.primary, off, data))
  }

  function ApplyAll(ops: seq<Op>, f: Flash): (r: Flash)
    requires SameSize(f)
    ensures SameSize(r) && |r.primary| == |f.primary|
  {
    if |ops| == 0 then f else Apply(ops[|ops| - 1], ApplyAll(ops[..|ops| - 1], f))
  }

  /** `b'` is `b` with some of the bits cleared that writing `d` clears. */
  predicate Clears(b: Byte, d: Byte, b': Byte) {
    b' & b == b' && b' & (b & d) == b & d
  }

  /** An erase has only set bits of `s` so far, and only in its region. */
  ghost predicate TornErase(s: seq<Byte>, off: nat, sz: nat, s': seq<Byte>) {
    |s'| == |s| && forall i :: 0 <= i < |s| ==> if Inside(i, off, sz) then s'[i] | s[i] == s'[i] else s'[i] == s[i]
  }

  /** A write has only cleared bits so far that it was going to clear, and only in its region. */
  ghost predicate TornWrite(s: seq<Byte>, data: seq<Byte>, off: nat, sz: nat, s': seq<Byte>)
    requires |s| == |data|
  {
    |s'| == |s| && forall i :: 0 <= i < |s| ==>
      if Inside(i, off, sz) then Clears(s[i], data[i], s'[i]) else s'[i] == s[i]
  }

  ghost predicate TornProgram(s: seq<Byte>, off: nat, data: seq<Byte>, s': seq<Byte>) {
    |s'| == |s| && forall i :: 0 <= i < |s| ==>
      if Inside(i, off, |data|) then Clears(s[i], data[i - off], s'[i]) else s'[i] == s[i]
  }

  /** What the flash may hold when a reset interrupts `op`. */
  ghost predicate Torn(op: Op, f: Flash, f': Flash)
    requires SameSize(f)
  {
    match op
    case Erase(Primary, off, sz) => TornErase(f.primary, off, sz, f'.primary) && f'.secondary == f.secondary
    case Erase(Secondary, off, sz) => TornErase(f.secondary, off, sz, f'.secondary) && f'.primary == f.primary
    case Copy(off, sz) => TornWrite(f.primary, f.secondary, off, sz, f'.primary) && f'.secondary == f.secondary
    case Program(off, data) => TornProgram(f.primary, off, data, f'.primary) && f'.secondary == f.secondary
  }

  // A reset may leave any part of an operation done: of the bits it was to change, those in `mask` are as they were.

  lemma SomeBitsSet(b: Byte, mask: Byte)
    ensures (b | !mask) | b == b | !mask
  {}

  lemma SomeBitsCleared(b: Byte, d: Byte, mask: Byte)
    ensures (b & (d | mask)) & b == b & (d | mask) && (b & (d | mask)) & (b & d) == b & d
  {}

  lemma PartialEraseIsTorn(s: seq<Byte>, off: nat, sz: nat, mask: seq<Byte>)
    requires |mask| == |s|
    ensures TornErase(s, off, sz, seq(|s|, i requires 0 <= i < |s| =>
                                    if off <= i < off + sz then s[i] | !mask[i] else s[i]))
  {
    forall i | 0 <= i < |s| ensures (s[i] | !mask[i]) | s[i] == s[i] | !mask[i] { SomeBitsSet(s[i], mask[i]); }
  }

  lemma PartialWriteIsTorn(s: seq<Byte>, data: seq<Byte>, off: nat, sz: nat, mask: seq<Byte>)
    requires |mask| == |data| == |s|
    ensures TornWrite(s, data, off, sz, seq(|s|, i requires 0 <= i < |s| =>
                                          if off <= i < off + sz then s[i] & (data[i] | mask[i]) else s[i]))
  {
    forall i | 0 <= i < |s|
      ensures (s[i] & (data[i] | mask[i])) & s[i] == s[i] & (data[i] | mask[i])
              && (s[i] & (data[i] | mask[i])) & (s[i] & data[i]) == s[i] & data[i]
    {
      SomeBitsCleared(s[i], data[i], mask[i]);
    }
  }

  lemma PartialProgramIsTorn(s: seq<Byte>, off: nat, data: seq<Byte>, mask: seq<Byte>)
    requires |mask| == |s|
    ensures TornProgram(s, off, data, seq(|s|, i requires 0 <= i < |s| =>
                                        if off <= i < off + |data| then s[i] & (data[i - off] | mask[i]) else s[i]))
  {
    forall i | 0 <= i < |s| && off <= i < off + |data|
      ensures (s[i] & (data[i - off] | mask[i])) & s[i] == s[i] & (data[i - off] | mask[i])
              && (s[i] & (data[i - off] | mask[i])) & (s[i] & data[i - off]) == s[i] & data[i - off]
    {
      SomeBitsCleared(s[i], data[i - off], mask[i]);
    }
  }

  /** An operation that is struck may also have been done to its end, or not at all. */
  lemma WholeOperationIsTorn(op: Op, f: Flash)
    requires SameSize(f)
    ensures Torn(op, f, Apply(op, f)) && Torn(op, f, f)
  {
    var p, q := f.primary, f.secondary;
    match op
    case Erase(_, _, _) =>
      forall i | 0 <= i < |p| ensures ERASED | p[i] == ERASED && p[i] | p[i] == p[i] { BitFacts(p[i], 0); }
      forall i | 0 <= i < |q| ensures ERASED | q[i] == ERASED && q[i] | q[i] == q[i] { BitFacts(q[i], 0); }
    case Copy(_, _) =>
      forall i | 0 <= i < |p| ensures Clears(p[i], q[i], p[i] & q[i]) && Clears(p[i], q[i], p[i]) {
        BitFacts(p[i], q[i]);
      }
    case Program(off, data) =>
      forall i | 0 <= i < |p| && Inside(i, off, |data|)
        ensures Clears(p[i], data[i - off], p[i] & data[i - off]) && Clears(p[i], data[i - off], p[i])
      {
        BitFacts(p[i], data[i - off]);
      }
  }

  lemma BitFacts(b: Byte, d: Byte)
    ensures ERASED | b == ERASED && b | b == b
    ensures Clears(b, d, b & d) && Clears(b, d, b)
  {}

  // ---------------------------------------------------------------- the plan of one boot

  /** Erase the first `k` sectors of the primary slot. */
  function ErasePlan(sectors: seq<nat>, k: nat): seq<Op>
    requires k <= |sectors|
  {
    if k == 0 then []
    else ErasePlan(sectors, k - 1) + [Erase(Primary, SectorOff(sectors, k - 1), sectors[k - 1])]
  }

  /** Copy the first `k` buffers of `sz` bytes. */
  function CopyPlan(k: nat, sz: nat): seq<Op>
    requires k > 0 ==> BufOff(k - 1) < sz
  {
    if k == 0 then []
    else CopyPlan(k - 1, sz) + [Copy(BufOff(k - 1), Min(COPY_BUF, sz - BufOff(k - 1)))]
  }

  function Buffers(sz: nat): nat {
    (sz + COPY_BUF - 1) / COPY_BUF
  }

  /** The primary slot is erased and rewritten, all of it. */
  function RewritePlan(c: Config): seq<Op>
    requires c.HasSectors()
  {
    ErasePlan(c.sectors, |c.sectors|) + CopyPlan(Buffers(c.Size()), c.Size())
  }

  /** Afterwards the header and the trailer of the secondary slot are erased. */
  function RetirePlan(c: Config): seq<Op>
    requires c.HasSectors()
  {
    var last := |c.sectors| - 1;
    [Erase(Secondary, 0, c.sectors[0]), Erase(Secondary, SectorOff(c.sectors, last), c.sectors[last])]
  }

  /** What a boot does to the flash, decided from what it finds there. */
  function BootPlan(c: Config, f: Flash): seq<Op>
    requires c.HasSectors()
  {
    if !c.requested(f.secondary) || c.noImage(f.secondary) then []
    else if !c.valid(f.secondary) then [Erase(Secondary, 0, c.Size())]
    else RewritePlan(c) + RetirePlan(c)
  }

  function Boot(c: Config, f: Flash): Flash
    requires c.HasSectors() && SameSize(f)
  {
    ApplyAll(BootPlan(c, f), f)
  }

  /** `f'` is what a reset leaves when it strikes `plan` after `k` operations, or inside the next one. */
  ghost predicate Struck(plan: seq<Op>, f: Flash, k: nat, f': Flash)
    requires SameSize(f)
  {
    k <= |plan| && (f' == ApplyAll(plan[..k], f) || (k < |plan| && Torn(plan[k], ApplyAll(plan[..k], f), f')))
  }

  /** `f'` is what a reset leaves when it strikes, anywhere, a boot that started from `f`. */
  ghost predicate Interrupted(c: Config, f: Flash, f': Flash)
    requires c.HasSectors() && SameSize(f)
  {
    exists k :: Struck(BootPlan(c, f), f, k, f')
  }

  /** `f'` is what any number `n` of interrupted boots may leave. */
  ghost predicate AfterResets(c: Config, f: Flash, n: nat, f': Flash)
    requires c.HasSectors() && SameSize(f)
    decreases n
  {
    if n == 0 then f' == f
    else exists m :: SameSize(m) && AfterResets(c, f, n - 1, m) && Interrupted(c, m, f')
  }

  // ---------------------------------------------------------------- the plan computes the copy

  lemma ApplyOneMore(ops: seq<Op>, op: Op, f: Flash)
    requires SameSize(f)
    ensures ApplyAll(ops + [op], f) == Apply(op, ApplyAll(ops, f))
  {
    assert (ops + [op])[..|ops|] == ops;
  }

  lemma {:induction false} ApplyConcat(a: seq<Op>, b: seq<Op>, f: Flash)
    requires SameSize(f)
    ensures ApplyAll(a + b, f) == ApplyAll(b, ApplyAll(a, f))
    decreases |b|
  {
    if |b| == 0 {
      assert a + b == a;
    } else {
      var n := |b| - 1;
      ApplyConcat(a, b[..n], f);
      assert a + b == (a + b[..n]) + [b[n]];
      ApplyOneMore(a + b[..n], b[n], f);
    }
  }

  lemma {:induction false} EraseSectors(sectors: seq<nat>, k: nat, f: Flash)
    requires k <= |sectors| && SameSize(f) && |f.primary| == SectorOff(sectors, |sectors|)
    ensures ApplyAll(ErasePlan(sectors, k), f) == f.(primary := Erased(f.primary, 0, SectorOff(sectors, k)))
  {
    if k == 0 {
      assert Erased(f.primary, 0, 0) == f.primary;
    } else {
      hide Erased;
      var off := SectorOff(sectors, k - 1);
      EraseSectors(sectors, k - 1, f);
      ApplyOneMore(ErasePlan(sectors, k - 1), Erase(Primary, off, sectors[k - 1]), f);
      ErasedOnwards(f.primary, off, sectors[k - 1]);
    }
  }

  lemma ErasedOnwards(s: seq<Byte>, off: nat, n: nat)
    ensures Erased(Erased(s, 0, off), off, n) == Erased(s, 0, off + n)
  {}

  lemma WrittenOnwards(s: seq<Byte>, data: seq<Byte>, off: nat, n: nat)
    requires |s| == |data|
    ensures Written(Written(s, data, 0, off), data, off, n) == Written(s, data, 0, off + n)
  {}

  /** Copying `sz` bytes writes each of them once, whatever the primary slot held. */
  lemma {:induction false} CopyBuffers(k: nat, sz: nat, f: Flash)
    requires SameSize(f) && sz <= |f.primary| && (k > 0 ==> BufOff(k - 1) < sz)
    ensures ApplyAll(CopyPlan(k, sz), f) == f.(primary := Written(f.primary, f.secondary, 0, Min(BufOff(k), sz)))
  {
    if k == 0 {
      assert Written(f.primary, f.secondary, 0, 0) == f.primary;
    } else {
      hide Written;
      var off := BufOff(k - 1);
      var n := Min(COPY_BUF, sz - off);
      CopyBuffers(k - 1, sz, f);
      ApplyOneMore(CopyPlan(k - 1, sz), Copy(off, n), f);
      WrittenOnwards(f.primary, f.secondary, off, n);
    }
  }

  /** Where the primary slot was erased first, a write leaves exactly the data. */
  lemma WrittenOnErased(s: seq<Byte>, data: seq<Byte>, off: nat, sz: nat)
    requires |s| == |data| && forall i :: 0 <= i < |s| && Inside(i, off, sz) ==> s[i] == ERASED
    ensures forall i :: 0 <= i < |s| && Inside(i, off, sz) ==> Written(s, data, off, sz)[i] == data[i]
  {
    forall i | 0 <= i < |s| && Inside(i, off, sz) ensures Written(s, data, off, sz)[i] == data[i] {
      AndErased(data[i]);
    }
  }

  /** Rewriting makes the primary slot a byte-for-byte copy of the secondary one. */
  lemma RewriteCopies(c: Config, f: Flash)
    requires c.HasSectors() && SameSize(f) && |f.primary| == c.Size()
    ensures ApplyAll(RewritePlan(c), f) == Flash(f.secondary, f.secondary)
  {
    var n := c.Size();
    var e := Erased(f.primary, 0, n);
    EraseSectors(c.sectors, |c.sectors|, f);
    ApplyConcat(ErasePlan(c.sectors, |c.sectors|), CopyPlan(Buffers(n), n), f);
    CopyBuffers(Buffers(n), n, f.(primary := e));
    WrittenOnErased(e, f.secondary, 0, n);
    assert Written(e, f.secondary, 0, n) == f.secondary;
  }

  // ---------------------------------------------------------------- power-fail safety

  predicate Touches(op: Op, slot: Slot) {
    match op
    case Erase(s, _, _) => s == slot
    case _ => slot.Primary?
  }

  function Contents(f: Flash, slot: Slot): seq<Byte> {
    if slot.Primary? then f.primary else f.secondary
  }

  /** Operations that stay away from a slot leave it alone. */
  lemma {:induction false} UntouchedSlot(ops: seq<Op>, f: Flash, slot: Slot)
    requires SameSize(f) && forall i :: 0 <= i < |ops| ==> !Touches(ops[i], slot)
    ensures Contents(ApplyAll(ops, f), slot) == Contents(f, slot)
    decreases |ops|
  {
    if |ops| > 0 {
      UntouchedSlot(ops[..|ops| - 1], f, slot);
    }
  }

  lemma {:induction false} ErasesSpareSecondary(sectors: seq<nat>, k: nat)
    requires k <= |sectors|
    ensures forall i :: 0 <= i < |ErasePlan(sectors, k)| ==> !Touches(ErasePlan(sectors, k)[i], Secondary)
    decreases k
  {
    if k > 0 { ErasesSpareSecondary(sectors, k - 1); }
  }

  lemma {:induction false} CopiesSpareSecondary(k: nat, sz: nat)
    requires k > 0 ==> BufOff(k - 1) < sz
    ensures forall i :: 0 <= i < |CopyPlan(k, sz)| ==> !Touches(CopyPlan(k, sz)[i], Secondary)
    decreases k
  {
    if k > 0 { CopiesSpareSecondary(k - 1, sz); }
  }

  /** Every bit of `b` that was set is still set in `a`: erases, whole or torn, are all that happened to it. */
  ghost predicate BitsOnlySet(b: seq<Byte>, a: seq<Byte>) {
    |a| == |b| && forall i :: 0 <= i < |a| ==> a[i] & b[i] == b[i]
  }

  predicate Holds(s: seq<Byte>, image: seq<Byte>) {
    image <= s
  }

  /** A boot that finds this secondary slot rewrites the primary slot from it. */
  predicate Pending(c: Config, s: seq<Byte>) {
    c.requested(s) && !c.noImage(s) && c.valid(s)
  }

  /**
   The hash check tells a damaged image: no slot reached from `s0` by setting bits is valid without holding the image.
   */
  ghost predicate DetectsDamage(c: Config, s0: seq<Byte>, image: seq<Byte>) {
    forall s :: BitsOnlySet(s0, s) && c.valid(s) ==> Holds(s, image)
  }

  /** The image is in the primary slot already, or it is in the secondary slot and will be copied again. */
  ghost predicate Safe(c: Config, s0: seq<Byte>, image: seq<Byte>, f: Flash) {
    && |f.primary| == |f.secondary| == c.Size()
    && BitsOnlySet(s0, f.secondary)
    && (Holds(f.primary, image) || (Holds(f.secondary, image) && Pending(c, f.secondary)))
  }

  lemma OrSetsBits(a: Byte, b: Byte, a': Byte)
    requires a & b == b && a' | a == a'
    ensures a' & b == b
  {}

  lemma TornEraseSetsBits(s0: seq<Byte>, s: seq<Byte>, off: nat, sz: nat, s': seq<Byte>)
    requires BitsOnlySet(s0, s) && TornErase(s, off, sz, s')
    ensures BitsOnlySet(s0, s')
  {
    forall i | 0 <= i < |s'| ensures s'[i] & s0[i] == s0[i] {
      if Inside(i, off, sz) { OrSetsBits(s[i], s0[i], s'[i]); }
    }
  }

  lemma {:induction false} SecondaryErasesSetBits(ops: seq<Op>, f: Flash, s0: seq<Byte>)
    requires SameSize(f) && BitsOnlySet(s0, f.secondary)
    ensures BitsOnlySet(s0, ApplyAll(ops, f).secondary)
    decreases |ops|
  {
    if |ops| > 0 {
      var n := |ops| - 1;
      SecondaryErasesSetBits(ops[..n], f, s0);
      var s := ApplyAll(ops[..n], f).secondary;
      forall i | 0 <= i < |s| ensures ApplyAll(ops, f).secondary[i] & s0[i] == s0[i] {
        AndErased(s0[i]);
      }
    }
  }

  lemma TornKeepsBits(op: Op, f: Flash, f': Flash, s0: seq<Byte>)
    requires SameSize(f) && BitsOnlySet(s0, f.secondary) && Torn(op, f, f')
    ensures BitsOnlySet(s0, f'.secondary) && |f'.primary| == |f.primary|
  {
    if op.Erase? && op.slot.Secondary? {
      TornEraseSetsBits(s0, f.secondary, op.off, op.sz, f'.secondary);
    }
  }

  lemma TornSparesSlot(op: Op, f: Flash, f': Flash, slot: Slot)
    requires SameSize(f) && Torn(op, f, f') && !Touches(op, slot)
    ensures Contents(f', slot) == Contents(f, slot)
  {}

  /** Inside a plan that leaves `slot` alone, whatever point a reset strikes, that slot still holds what it held. */
  lemma ResetSparesSlot(plan: seq<Op>, f: Flash, k: nat, f': Flash, slot: Slot)
    requires SameSize(f) && Struck(plan, f, k, f') && forall i :: 0 <= i < |plan| ==> !Touches(plan[i], slot)
    ensures Contents(f', slot) == Contents(f, slot)
  {
    hide ApplyAll, Torn, Touches, Contents;
    UntouchedSlot(plan[..k], f, slot);
    var g := ApplyAll(plan[..k], f);
    if f' != g { TornSparesSlot(plan[k], g, f', slot); }
  }

  /** A plan of two parts is struck in the first one, or in the second one after the first is over. */
  lemma StruckInPart(a: seq<Op>, b: seq<Op>, f: Flash, k: nat, f': Flash)
    requires SameSize(f) && Struck(a + b, f, k, f')
    ensures k < |a| ==> Struck(a, f, k, f')
    ensures k >= |a| ==> Struck(b, ApplyAll(a, f), k - |a|, f')
  {
    hide ApplyAll, Torn;
    if k < |a| {
      assert (a + b)[..k] == a[..k] && (a + b)[k] == a[k];
    } else {
      assert (a + b)[..k] == a + b[..k - |a|];
      ApplyConcat(a, b[..k - |a|], f);
    }
  }

  /**
   A reset that strikes an upgrade: before the rewrite is over the secondary slot is intact, afterwards the primary one
   is.
   */
  lemma ResetDuringUpgrade(c: Config, f: Flash, k: nat, f': Flash)
    requires c.HasSectors() && SameSize(f) && |f.primary| == c.Size()
    requires Struck(RewritePlan(c) + RetirePlan(c), f, k, f')
    ensures f'.secondary == f.secondary || f'.primary == f.secondary
  {
    var rewrite, retire := RewritePlan(c), RetirePlan(c);
    StruckInPart(rewrite, retire, f, k, f');
    if k < |rewrite| {
      ErasesSpareSecondary(c.sectors, |c.sectors|);
      CopiesSpareSecondary(Buffers(c.Size()), c.Size());
      ResetSparesSlot(rewrite, f, k, f', Secondary);
    } else {
      RewriteCopies(c, f);
      ResetSparesSlot(retire, Flash(f.secondary, f.secondary), k - |rewrite|, f', Primary);
    }
  }

  /** Bits of the secondary slot are only ever set, struck or not. */
  lemma ResetKeepsBits(plan: seq<Op>, f: Flash, k: nat, f': Flash, s0: seq<Byte>)
    requires SameSize(f) && BitsOnlySet(s0, f.secondary) && Struck(plan, f, k, f')
    ensures BitsOnlySet(s0, f'.secondary) && |f'.primary| == |f.primary|
  {
    hide ApplyAll, Torn, BitsOnlySet;
    var g := ApplyAll(plan[..k], f);
    SecondaryErasesSetBits(plan[..k], f, s0);
    if f' != g { TornKeepsBits(plan[k], g, f', s0); }
  }

  lemma ResetKeepsSafe(c: Config, s0: seq<Byte>, image: seq<Byte>, f: Flash, f': Flash)
    requires c.HasSectors() && DetectsDamage(c, s0, image) && Safe(c, s0, image, f) && Interrupted(c, f, f')
    ensures Safe(c, s0, image, f')
  {
    hide Struck, BitsOnlySet;
    var k :| Struck(BootPlan(c, f), f, k, f');
    ResetKeepsBits(BootPlan(c, f), f, k, f', s0);
    assert |f'.secondary| == |s0| by { SameLength(s0, f.secondary); SameLength(s0, f'.secondary); }
    SameLength(s0, f.secondary);
    if Pending(c, f.secondary) {
      ResetDuringUpgrade(c, f, k, f');
    } else {
      ResetSparesSlot(BootPlan(c, f), f, k, f', Primary);
    }
  }

  lemma SameLength(b: seq<Byte>, a: seq<Byte>)
    requires BitsOnlySet(b, a)
    ensures |a| == |b|
  {}

  /**
   The main theorem: after any number of resets, at any point of any operation, a slot still holds the whole image.
   */
  lemma {:induction false} PowerFailSafe(c: Config, image: seq<Byte>, f: Flash, n: nat, f': Flash)
    requires c.HasSectors() && |f.primary| == |f.secondary| == c.Size()
    requires Holds(f.secondary, image) && Pending(c, f.secondary)
    requires DetectsDamage(c, f.secondary, image)
    requires AfterResets(c, f, n, f')
    ensures Safe(c, f.secondary, image, f')
    ensures Holds(f'.primary, image) || Holds(f'.secondary, image)
    decreases n
  {
    hide Interrupted, Pending, DetectsDamage;
    if n == 0 {
      assert BitsOnlySet(f.secondary, f.secondary);
    } else {
      var m :| SameSize(m) && AfterResets(c, f, n - 1, m) && Interrupted(c, m, f');
      PowerFailSafe(c, image, f, n - 1, m);
      ResetKeepsSafe(c, f.secondary, image, m, f');
    }
  }

  /** A boot that is not interrupted moves a safe flash to one whose primary slot holds the image. */
  lemma CleanBootUpgrades(c: Config, s0: seq<Byte>, image: seq<Byte>, f: Flash)
    requires c.HasSectors() && DetectsDamage(c, s0, image) && Safe(c, s0, image, f)
    ensures Holds(Boot(c, f).primary, image)
    ensures Pending(c, f.secondary) ==> Boot(c, f).primary == f.secondary
  {
    if Pending(c, f.secondary) {
      ApplyConcat(RewritePlan(c), RetirePlan(c), f);
      RewriteCopies(c, f);
      UntouchedSlot(RetirePlan(c), Flash(f.secondary, f.secondary), Primary);
    } else {
      UntouchedSlot(BootPlan(c, f), f, Primary);
    }
  }

  /** And the first boot that is not interrupted ends with the image in the primary slot. */
  lemma FirstCleanBootUpgrades(c: Config, image: seq<Byte>, f: Flash, n: nat, f': Flash)
    requires c.HasSectors() && |f.primary| == |f.secondary| == c.Size()
    requires Holds(f.secondary, image) && Pending(c, f.secondary)
    requires DetectsDamage(c, f.secondary, image)
    requires AfterResets(c, f, n, f')
    ensures SameSize(f') && Holds(Boot(c, f').primary, image)
    ensures n == 0 ==> Boot(c, f').primary == f.secondary
  {
    hide Boot, DetectsDamage, Pending, Interrupted, Holds;
    PowerFailSafe(c, image, f, n, f');
    CleanBootUpgrades(c, f.secondary, image, f');
  }

  /** The retired secondary slot: its first and its last sector are erased, the rest is as it was. */
  ghost predicate Retired(c: Config, s: seq<Byte>, s': seq<Byte>)
    requires c.HasSectors()
  {
    && |s'| == |s|
    && forall i :: 0 <= i < |s| ==>
         s'[i] == if i < c.sectors[0] || Inside(i, SectorOff(c.sectors, |c.sectors| - 1), c.sectors[|c.sectors| - 1])
                  then ERASED else s[i]
  }

  lemma UpgradeRetires(c: Config, f: Flash)
    requires c.HasSectors() && |f.primary| == |f.secondary| == c.Size() && Pending(c, f.secondary)
    ensures Boot(c, f).primary == f.secondary && Retired(c, f.secondary, Boot(c, f).secondary)
  {
    ApplyConcat(RewritePlan(c), RetirePlan(c), f);
    RewriteCopies(c, f);
    hide RewritePlan;
    ApplyTwo(RetirePlan(c), Flash(f.secondary, f.secondary));
  }

  /** An upgrade happens once: the boot that follows finds no image in the secondary slot and changes nothing. */
  lemma UpgradeHappensOnce(c: Config, f: Flash)
    requires c.HasSectors() && |f.primary| == |f.secondary| == c.Size() && Pending(c, f.secondary)
    requires forall s :: |s| == c.Size() && (forall i :: 0 <= i < c.sectors[0] && i < |s| ==> s[i] == ERASED) ==>
               c.noImage(s)
    ensures Boot(c, Boot(c, f)) == Boot(c, f)
  {
    UpgradeRetires(c, f);
    hide Boot, RewritePlan, RetirePlan;
    var g := Boot(c, f);
    assert c.noImage(g.secondary);
    assert BootPlan(c, g) == [];
    BootOfEmptyPlan(c, g);
  }

  lemma BootOfEmptyPlan(c: Config, f: Flash)
    requires c.HasSectors() && SameSize(f) && BootPlan(c, f) == []
    ensures Boot(c, f) == f
  {}

  /** Without a request, or without an image, a boot touches nothing. */
  lemma NothingRequestedNothingDone(c: Config, f: Flash)
    requires c.HasSectors() && SameSize(f) && (!c.requested(f.secondary) || c.noImage(f.secondary))
    ensures Boot(c, f) == f
  {
    BootOfEmptyPlan(c, f);
  }

  /** A requested image that fails its check is erased, all of the secondary slot with it, and the primary is kept. */
  lemma InvalidImageIsErased(c: Config, f: Flash)
    requires c.HasSectors() && |f.primary| == |f.secondary| == c.Size()
    requires c.requested(f.secondary) && !c.noImage(f.secondary) && !c.valid(f.secondary)
    ensures Boot(c, f).primary == f.primary && |Boot(c, f).secondary| == |f.secondary|
    ensures forall i :: 0 <= i < |f.secondary| ==> Boot(c, f).secondary[i] == 0xFF
  {
    var plan := [Erase(Secondary, 0, c.Size())];
    assert BootPlan(c, f) == [] + plan;
    ApplyNothing(f);
    ApplyOneMore([], plan[0], f);
  }

  /**
   A requested image that passes its check is installed, byte for byte the whole slot, and the secondary slot loses its
   first and last sector and nothing else.
   */
  lemma ValidImageIsInstalled(c: Config, f: Flash)
    requires c.HasSectors() && |f.primary| == |f.secondary| == c.Size()
    requires c.requested(f.secondary) && !c.noImage(f.secondary) && c.valid(f.secondary)
    ensures Boot(c, f).primary == f.secondary && |Boot(c, f).secondary| == |f.secondary|
    ensures forall i :: 0 <= i < |f.secondary| ==>
              Boot(c, f).secondary[i] ==
              if i < c.sectors[0] || i >= |f.secondary| - c.sectors[|c.sectors| - 1] then 0xFF else f.secondary[i]
  {
    UpgradeRetires(c, f);
    hide Boot;
    assert c.Size() == SectorOff(c.sectors, |c.sectors| - 1) + c.sectors[|c.sectors| - 1];
  }

  // ---------------------------------------------------------------- the routines that run the plan

  /** The two image slots as the boot loader drives them. */
  class FlashDevice {
    const primary: array<Byte>
    const secondary: array<Byte>

    /** The flash operations performed so far, in order: what a reset can come between, or in the middle of. */
    ghost var log: seq<Op>

    ghost predicate Valid() {
      primary != secondary && primary.Length == secondary.Length
    }

    ghost function View(): (f: Flash)
      requires Valid()
      reads primary, secondary
      ensures SameSize(f)
    {
      Flash(primary[..], secondary[..])
    }

    constructor (primary: array<Byte>, secondary: array<Byte>)
      ensures this.primary == primary && this.secondary == secondary && log == []
    {
      this.primary, this.secondary, log := primary, secondary, [];
    }

    /** `boot_erase_region`. */
    method EraseRegion(slot: Slot, off: nat, sz: nat)
      requires Valid() && off + sz <= primary.Length
      modifies this`log, primary, secondary
      ensures View() == Apply(Erase(slot, off, sz), old(View()))
      ensures log == old(log) + [Erase(slot, off, sz)]
    {
      log := log + [Erase(slot, off, sz)];
      var area := if slot.Primary? then primary else secondary;
      forall i | off <= i < off + sz { area[i] := ERASED; }
      assert area[..] == Erased(old(area[..]), off, sz);
    }

    /** `flash_area_write` to the primary slot: a write clears bits. */
    method WriteRegion(off: nat, buf: seq<Byte>)
      requires Valid() && off + |buf| <= primary.Length && buf == secondary[off..off + |buf|]
      modifies this`log, primary
      ensures View() == Apply(Copy(off, |buf|), old(View()))
      ensures log == old(log) + [Copy(off, |buf|)]
    {
      log := log + [Copy(off, |buf|)];
      forall i | off <= i < off + |buf| { primary[i] := primary[i] & buf[i - off]; }
      assert forall i :: off <= i < off + |buf| ==> buf[i - off] == secondary[i];
      assert primary[..] == Written(old(primary[..]), secondary[..], off, |buf|);
    }

    /** `flash_area_write` of given bytes to the primary slot. */
    method ProgramRegion(off: nat, data: seq<Byte>)
      requires Valid() && off + |data| <= primary.Length
      modifies this`log, primary
      ensures View() == Apply(Program(off, data), old(View()))
      ensures log == old(log) + [Program(off, data)]
    {
      log := log + [Program(off, data)];
      forall i | off <= i < off + |data| { primary[i] := primary[i] & data[i - off]; }
      assert primary[..] == Programmed(old(primary[..]), off, data);
    }

    /** `boot_copy_region` from the secondary to the primary slot, through a buffer of 1024 bytes. */
    method CopyRegion(sz: nat)
      requires Valid() && sz <= primary.Length
      modifies this`log, primary
      ensures View() == ApplyAll(CopyPlan(Buffers(sz), sz), old(View()))
      ensures log == old(log) + CopyPlan(Buffers(sz), sz)
    {
      hide ApplyAll, Apply, Buffers;
      var copied: nat := 0;
      ApplyNothing(View());
      ghost var k: nat := 0;
      while copied < sz
        invariant copied == Min(BufOff(k), sz) && (k > 0 ==> BufOff(k - 1) < sz)
        invariant View() == ApplyAll(CopyPlan(k, sz), old(View()))
        invariant log == old(log) + CopyPlan(k, sz)
      {
        var chunk := if sz - copied > COPY_BUF then COPY_BUF else sz - copied;
        var buf := secondary[copied..copied + chunk];
        WriteRegion(copied, buf);
        ApplyOneMore(CopyPlan(k, sz), Copy(copied, chunk), old(View()));
        copied := copied + chunk;
        k := k + 1;
      }
      BuffersCount(k, sz);
    }

    /** The erase loop of `boot_copy_image`. */
    method ErasePrimary(c: Config) returns (size: nat)
      requires Valid() && c.HasSectors() && c.Size() == primary.Length
      modifies this`log, primary, secondary
      ensures size == c.Size()
      ensures log == old(log) + ErasePlan(c.sectors, |c.sectors|)
      ensures View() == ApplyAll(ErasePlan(c.sectors, |c.sectors|), old(View()))
    {
      hide ApplyAll, Apply;
      var sect := 0;
      size := 0;
      ApplyNothing(View());
      while sect < |c.sectors|
        invariant 0 <= sect <= |c.sectors| && size == SectorOff(c.sectors, sect)
        invariant log == old(log) + ErasePlan(c.sectors, sect)
        invariant View() == ApplyAll(ErasePlan(c.sectors, sect), old(View()))
      {
        SectorsFit(c.sectors, sect);
        ApplyOneMore(ErasePlan(c.sectors, sect), Erase(Primary, size, c.sectors[sect]), old(View()));
        EraseRegion(Primary, size, c.sectors[sect]);
        size := size + c.sectors[sect];
        sect := sect + 1;
      }
    }

    /** The two erases that end `boot_copy_image`. */
    method RetireSecondary(c: Config)
      requires Valid() && c.HasSectors() && c.Size() == primary.Length
      modifies this`log, primary, secondary
      ensures log == old(log) + RetirePlan(c)
      ensures View() == ApplyAll(RetirePlan(c), old(View())) && primary[..] == old(primary[..])
    {
      var last := |c.sectors| - 1;
      SectorsFit(c.sectors, 0);
      SectorsFit(c.sectors, last);
      ApplyTwo(RetirePlan(c), View());
      EraseRegion(Secondary, 0, c.sectors[0]);
      EraseRegion(Secondary, SectorOff(c.sectors, last), c.sectors[last]);
    }

    /** `boot_copy_image`, plain overwrite: the operations it performs are, one by one, those of the upgrade plan. */
    method CopyImage(c: Config)
      requires Valid() && c.HasSectors() && c.Size() == primary.Length
      modifies this`log, primary, secondary
      ensures log == old(log) + RewritePlan(c) + RetirePlan(c)
      ensures View() == ApplyAll(RewritePlan(c) + RetirePlan(c), old(View()))
      ensures primary[..] == old(secondary[..])
    {
      hide ApplyAll, RetirePlan;
      var size := ErasePrimary(c);
      CopyRegion(size);
      ApplyConcat(ErasePlan(c.sectors, |c.sectors|), CopyPlan(Buffers(size), size), old(View()));
      RewriteCopies(c, old(View()));
      RetireSecondary(c);
      ApplyConcat(RewritePlan(c), RetirePlan(c), old(View()));
    }
  }

  lemma ApplyNothing(f: Flash)
    requires SameSize(f)
    ensures ApplyAll([], f) == f
  {}

  lemma BuffersCount(k: nat, sz: nat)
    requires BufOff(k) >= sz && (k > 0 ==> BufOff(k - 1) < sz)
    ensures k == Buffers(sz)
  {}

  lemma ApplyTwo(ops: seq<Op>, f: Flash)
    requires |ops| == 2 && SameSize(f)
    ensures ApplyAll(ops, f) == Apply(ops[1], Apply(ops[0], f))
  {
    assert ops[..1][..0] == [];
    assert ApplyAll(ops[..1], f) == Apply(ops[0], f);
  }

  lemma {:induction false} SectorsFit(sectors: seq<nat>, k: nat)
    requires k < |sectors|
    ensures SectorOff(sectors, k) + sectors[k] <= SectorOff(sectors, |sectors|)
    decreases |sectors|
  {
    var n := |sectors| - 1;
    if k < n {
      SectorsFit(sectors[..n], k);
      SectorOffPrefix(sectors, k);
      SectorOffPrefix(sectors, n);
    }
  }

  lemma {:induction false} SectorOffPrefix(sectors: seq<nat>, k: nat)
    requires k < |sectors|
    ensures SectorOff(sectors[..|sectors| - 1], k) == SectorOff(sectors, k)
  {
    if k > 0 { SectorOffPrefix(sectors, k - 1); }
  }
}
