/**
 The chunked copy of an encrypted image between the slots.  Each chunk of 1024 bytes is decrypted (or encrypted:
 the cipher is counter mode, section 6.5 of NIST SP 800-38A) in the buffer on its way through.
 */
module EncryptedCopy {
  import opened Bytes

  const BLOCK: nat := 16

  /** The key stream of one image: the byte that position `i` of the encrypted part is XORed with. */
  type KeyStream = nat -> Byte

  /** The header fields the copy looks at; the part from `hdrSize` up to `tlvOff` is encrypted. */
  datatype Header = Header(hdrSize: nat, tlvOff: nat)
  {
    predicate Sane() { hdrSize < 0x1_0000 && hdrSize <= tlvOff < 0x8000_0000 }
  }

  /**
   The part of the buffer handed to the cipher: `sz` bytes from `idx`, `blkOff` bytes into the block of position `off`.
   */
  datatype Range = Range(idx: nat, sz: nat, off: nat, blkOff: nat)

  /** What the copy asks of the cipher for a chunk of `c` bytes at offset `p` of the slot. */
  function CipherRange(h: Header, p: nat, c: nat): Range
    requires h.Sane() && c <= COPY_BUF
  {
    var inHeader := p < h.hdrSize;
    var idx := if inHeader then h.hdrSize else 0;
    var blkOff := if inHeader then 0 else (p - h.hdrSize) % BLOCK;
    var sz := if inHeader then Sub32(c, h.hdrSize) else c;
    var clipped := if p + c > h.tlvOff then (if p >= h.tlvOff then 0 else h.tlvOff - p) else sz;
    Range(idx, clipped, p + idx - h.hdrSize, blkOff)
  }

  /** The cipher call on the buffer; `None` if it would reach past the 1024 bytes that are there. */
  function Cipher(ks: KeyStream, r: Range, chunk: seq<Byte>): (out: Option<seq<Byte>>)
    ensures out.Some? ==> |out.value| == |chunk|
  {
    if r.idx + r.sz > COPY_BUF then None
    else Some(seq(|chunk|, j requires 0 <= j < |chunk| =>
      if r.idx <= j < r.idx + r.sz then chunk[j] ^ ks(r.off / BLOCK * BLOCK + r.blkOff + (j - r.idx)) else chunk[j]))
  }

  /**
   The first `n` bytes of the copy of `src`, which lies at offset `off` of its slot; `None` if a cipher call overran.
   */
  function Copied(ks: KeyStream, h: Header, off: nat, src: seq<Byte>, n: nat): (r: Option<seq<Byte>>)
    requires h.Sane() && n <= |src|
    ensures r.Some? ==> |r.value| == n
    decreases n
  {
    if n == 0 then Some([])
    else
      var c := LastChunkOf(n);
      var before := Copied(ks, h, off, src, n - c);
      var chunk := Cipher(ks, CipherRange(h, off + n - c, c), src[n - c..n]);
      if before.Some? && chunk.Some? then Some(before.value + chunk.value) else None
  }

  /** The size of the chunk that ends a copy of `n` bytes. */
  function LastChunkOf(n: nat): (c: nat)
    requires n > 0
    ensures 0 < c <= COPY_BUF && c <= n
  {
    (n - 1) % COPY_BUF + 1
  }

  /** What the copy is for: exactly the encrypted part is XORed with its key stream, header and TLVs pass unchanged. */
  function Transformed(ks: KeyStream, h: Header, off: nat, src: seq<Byte>): (r: seq<Byte>) {
    seq(|src|, i requires 0 <= i < |src| =>
      if h.hdrSize <= off + i < h.tlvOff then src[i] ^ ks(off + i - h.hdrSize) else src[i])
  }

  /** How the flash driver answers for one chunk; a write that fails leaves anything in the place of that chunk. */
  datatype Driver = Fine | ReadFails | WriteFails(left: nat -> Byte)

  /** The driver does not fail for any chunk of the first `n` bytes. */
  ghost predicate AllFine(driver: nat -> Driver, n: nat) {
    forall p :: 0 <= p < n && p % COPY_BUF == 0 ==> driver(p).Fine?
  }

  /**
   `boot_copy_region` with encrypted images, from `src` to an erased destination.  It succeeds exactly if the driver
   does for every chunk and no cipher call overruns; `copied` bytes are right in any case, and nothing behind the next
   chunk is touched.
   */
  method CopyRegion(ks: KeyStream, h: Header, off: nat, src: seq<Byte>, dst: array<Byte>, driver: nat -> Driver)
    returns (ok: bool, copied: nat)
    requires h.Sane() && |src| <= dst.Length
    requires forall i :: 0 <= i < dst.Length ==> dst[i] == ERASED
    modifies dst
    ensures ok <==> Copied(ks, h, off, src, |src|).Some? && AllFine(driver, |src|)
    ensures copied <= |src| && (ok <==> copied == |src|)
    ensures Copied(ks, h, off, src, copied).Some? && dst[..copied] == Copied(ks, h, off, src, copied).value
    ensures forall i :: Min(copied + COPY_BUF, |src|) <= i < dst.Length ==> dst[i] == ERASED
  {
    hide Cipher, CipherRange, LastChunkOf, Copied, AllFine, Boundary;
    copied := 0;
    NothingCopied(ks, h, off, src, driver);
    while copied < |src|
      invariant 0 <= copied <= |src| && Boundary(copied, |src|)
      invariant Copied(ks, h, off, src, copied).Some? && AllFine(driver, copied)
      invariant dst[..copied] == Copied(ks, h, off, src, copied).value
      invariant forall i :: copied <= i < dst.Length ==> dst[i] == ERASED
    {
      var chunkSz := if |src| - copied > COPY_BUF then COPY_BUF else |src| - copied;
      var next := copied + chunkSz;
      ChunkDriver(driver, copied, next, |src|);
      if driver(copied).ReadFails? { return false, copied; }
      var buf := Cipher(ks, CipherRange(h, off + copied, chunkSz), src[copied..next]);
      OneMoreChunk(ks, h, off, src, copied, next);
      if buf.None? { return false, copied; }
      if driver(copied).WriteFails? {
        Spoil(dst, copied, next, driver(copied).left);
        return false, copied;
      }
      Program(dst, copied, buf.value);
      copied := next;
    }
    return true, copied;
  }

  /** Where a chunk may begin, or the copy end. */
  predicate Boundary(n: nat, len: nat) {
    n % COPY_BUF == 0 || n == len
  }

  lemma NothingCopied(ks: KeyStream, h: Header, off: nat, src: seq<Byte>, driver: nat -> Driver)
    requires h.Sane()
    ensures Copied(ks, h, off, src, 0) == Some([]) && AllFine(driver, 0) && Boundary(0, |src|)
  {}

  lemma ChunkDriver(driver: nat -> Driver, copied: nat, next: nat, len: nat)
    requires copied < len && Boundary(copied, len) && next == copied + Min(COPY_BUF, len - copied)
    requires AllFine(driver, copied)
    ensures driver(copied).Fine? ==> AllFine(driver, next)
    ensures !driver(copied).Fine? ==> !AllFine(driver, len)
  {}

  /** The copy grows by one chunk, or fails for good. */
  lemma OneMoreChunk(ks: KeyStream, h: Header, off: nat, src: seq<Byte>, copied: nat, next: nat)
    requires h.Sane() && copied < |src| && Boundary(copied, |src|) && next == copied + Min(COPY_BUF, |src| - copied)
    requires Copied(ks, h, off, src, copied).Some?
    ensures Boundary(next, |src|)
    ensures var chunk := Cipher(ks, CipherRange(h, off + copied, next - copied), src[copied..next]);
            && (chunk.Some? ==>
                  Copied(ks, h, off, src, next) == Some(Copied(ks, h, off, src, copied).value + chunk.value))
            && (chunk.None? ==> Copied(ks, h, off, src, |src|).None?)
  {
    hide Cipher, CipherRange, LastChunkOf;
    NextChunk(copied, |src|, next - copied);
    if Copied(ks, h, off, src, next).None? { FailureSticks(ks, h, off, src, next, |src|); }
  }

  method Spoil(dst: array<Byte>, from: nat, to: nat, left: nat -> Byte)
    requires from <= to <= dst.Length
    modifies dst
    ensures forall i :: 0 <= i < from || to <= i < dst.Length ==> dst[i] == old(dst[i])
  {
    forall i | from <= i < to { dst[i] := left(i); }
  }

  lemma NextChunk(copied: nat, len: nat, chunkSz: nat)
    requires copied < len && copied % COPY_BUF == 0 && chunkSz == Min(COPY_BUF, len - copied)
    ensures LastChunkOf(copied + chunkSz) == chunkSz
    ensures (copied + chunkSz) % COPY_BUF == 0 || copied + chunkSz == len
  {}

  /** A flash write: it clears bits, so on erased bytes it leaves the data. */
  method Program(dst: array<Byte>, at: nat, data: seq<Byte>)
    requires at + |data| <= dst.Length && forall i :: at <= i < dst.Length ==> dst[i] == ERASED
    modifies dst
    ensures dst[..at + |data|] == old(dst[..at]) + data
    ensures forall i :: at + |data| <= i < dst.Length ==> dst[i] == ERASED
  {
    forall i | at <= i < at + |data| { dst[i] := dst[i] & data[i - at]; }
    forall i | 0 <= i < |data| ensures ERASED & data[i] == data[i] { AndErased(data[i]); }
  }

  lemma ChunkBefore(n: nat, m: nat)
    requires n < m && n % COPY_BUF == 0
    ensures n <= m - LastChunkOf(m)
  {}

  /** Once a chunk has failed, so has every longer copy. */
  lemma {:induction false} FailureSticks(ks: KeyStream, h: Header, off: nat, src: seq<Byte>, n: nat, m: nat)
    requires h.Sane() && n <= m <= |src| && (n % COPY_BUF == 0 || n == m)
    requires Copied(ks, h, off, src, n).None?
    ensures Copied(ks, h, off, src, m).None?
    decreases m
  {
    hide LastChunkOf, Cipher, CipherRange;
    if n < m {
      ChunkBefore(n, m);
      FailureSticks(ks, h, off, src, n, m - LastChunkOf(m));
    }
  }

  // ---------------------------------------------------------------- when the copy is the transform

  /** The cipher is asked for the right part of the chunk of `c` bytes at `p`. */
  predicate RangeRight(h: Header, p: nat, c: nat)
    requires h.Sane() && c <= COPY_BUF
  {
    p >= h.hdrSize || (p == 0 && h.hdrSize <= c <= h.tlvOff)
  }

  lemma BlockSplit(x: nat)
    ensures x / BLOCK * BLOCK + x % BLOCK == x
  {}

  lemma RightRangeTransforms(ks: KeyStream, h: Header, p: nat, chunk: seq<Byte>)
    requires h.Sane() && |chunk| <= COPY_BUF && RangeRight(h, p, |chunk|)
    ensures Cipher(ks, CipherRange(h, p, |chunk|), chunk) == Some(Transformed(ks, h, p, chunk))
  {
    var r := CipherRange(h, p, |chunk|);
    if p >= h.hdrSize {
      BlockSplit(p - h.hdrSize);
      assert r.off / BLOCK * BLOCK + r.blkOff == p - h.hdrSize;
    }
    assert Cipher(ks, r, chunk).Some?;
    assert Cipher(ks, r, chunk).value == Transformed(ks, h, p, chunk);
  }

  lemma TransformedConcat(ks: KeyStream, h: Header, off: nat, a: seq<Byte>, b: seq<Byte>)
    ensures Transformed(ks, h, off, a + b) == Transformed(ks, h, off, a) + Transformed(ks, h, off + |a|, b)
  {}

  /** What the caller can check before a copy of `sz` bytes from offset `off`. */
  predicate Suitable(h: Header, off: nat, sz: nat) {
    sz == 0 || off >= h.hdrSize || (off == 0 && h.hdrSize <= Min(COPY_BUF, sz) <= h.tlvOff)
  }

  lemma {:induction false} SuitableCopies(ks: KeyStream, h: Header, off: nat, src: seq<Byte>, n: nat)
    requires h.Sane() && n <= |src| && (n % COPY_BUF == 0 || n == |src|) && Suitable(h, off, |src|)
    ensures Copied(ks, h, off, src, n) == Some(Transformed(ks, h, off, src[..n]))
    decreases n
  {
    hide LastChunkOf, Cipher, CipherRange, RangeRight, Suitable, Transformed;
    if n == 0 {
      TransformedEmpty(ks, h, off);
      assert src[..0] == [];
    } else {
      var c := LastChunkOf(n);
      SuitableRange(h, off, n, |src|);
      SuitableCopies(ks, h, off, src, n - c);
      RightRangeTransforms(ks, h, off + n - c, src[n - c..n]);
      TransformedConcat(ks, h, off, src[..n - c], src[n - c..n]);
      assert src[..n] == src[..n - c] + src[n - c..n];
    }
  }

  lemma TransformedEmpty(ks: KeyStream, h: Header, off: nat)
    ensures Transformed(ks, h, off, []) == []
  {}

  /** The chunk that ends a suitable copy at a chunk boundary is asked for correctly. */
  lemma SuitableRange(h: Header, off: nat, n: nat, sz: nat)
    requires h.Sane() && 0 < n <= sz && (n % COPY_BUF == 0 || n == sz) && Suitable(h, off, sz)
    ensures RangeRight(h, off + n - LastChunkOf(n), LastChunkOf(n))
    ensures (n - LastChunkOf(n)) % COPY_BUF == 0
  {
    var c := LastChunkOf(n);
    if n <= COPY_BUF {
      assert c == n == Min(COPY_BUF, sz);
    } else {
      assert n - c >= COPY_BUF;
    }
  }

  /** In a suitable copy the destination is the transform of the whole source, for every image and every key. */
  lemma CopyIsTransform(ks: KeyStream, h: Header, off: nat, src: seq<Byte>)
    requires h.Sane() && Suitable(h, off, |src|)
    ensures Copied(ks, h, off, src, |src|) == Some(Transformed(ks, h, off, src))
  {
    SuitableCopies(ks, h, off, src, |src|);
    assert src[..|src|] == src;
  }

  /** A first chunk that the header overruns, or that the TLVs start in, goes wrong for some image and key. */
  lemma UnsuitableFirstChunk(h: Header, sz: nat) returns (ks: KeyStream, src: seq<Byte>)
    requires h.Sane() && !Suitable(h, 0, sz)
    ensures |src| == sz && Copied(ks, h, 0, src, sz) != Some(Transformed(ks, h, 0, src))
  {
    ks := _ => 1;
    src := seq(sz, _ => 0);
    var c := Min(COPY_BUF, sz);
    assert LastChunkOf(c) == c;
    assert Copied(ks, h, 0, src, 0) == Some([]);
    var first := Cipher(ks, CipherRange(h, 0, c), src[0..c]);
    if first.None? {
      FailureSticks(ks, h, 0, src, c, sz);
    } else if Copied(ks, h, 0, src, sz).Some? {
      assert first.value[h.tlvOff] == 1;
      PrefixKept(ks, h, 0, src, c, sz);
      assert Copied(ks, h, 0, src, sz).value[h.tlvOff] == 1;
    }
  }

  /** Later chunks only append. */
  lemma {:induction false} PrefixKept(ks: KeyStream, h: Header, off: nat, src: seq<Byte>, n: nat, m: nat)
    requires h.Sane() && n <= m <= |src| && (n % COPY_BUF == 0 || n == m)
    requires Copied(ks, h, off, src, m).Some?
    ensures Copied(ks, h, off, src, n).Some? && Copied(ks, h, off, src, n).value <= Copied(ks, h, off, src, m).value
    decreases m
  {
    hide LastChunkOf, Cipher, CipherRange;
    if n < m {
      ChunkBefore(n, m);
      PrefixKept(ks, h, off, src, n, m - LastChunkOf(m));
    }
  }

  /** The exact condition for a copy from the start of the slot. */
  lemma CopyIsTransformIff(h: Header, sz: nat)
    requires h.Sane()
    ensures (forall ks: KeyStream, src: seq<Byte> :: |src| == sz ==>
               Copied(ks, h, 0, src, sz) == Some(Transformed(ks, h, 0, src)))
            <==> Suitable(h, 0, sz)
  {
    if Suitable(h, 0, sz) {
      forall ks: KeyStream, src: seq<Byte> | |src| == sz
        ensures Copied(ks, h, 0, src, sz) == Some(Transformed(ks, h, 0, src))
      {
        CopyIsTransform(ks, h, 0, src);
      }
    } else {
      var ks, src := UnsuitableFirstChunk(h, sz);
      assert |src| == sz;
    }
  }

  lemma XorTwice(a: Byte, k: Byte)
    ensures (a ^ k) ^ k == a
  {}

  /** Copying an image out and back, with the same header and key, restores every byte. */
  lemma ThereAndBack(ks: KeyStream, h: Header, off: nat, src: seq<Byte>)
    requires h.Sane() && Suitable(h, off, |src|)
    ensures var there := Copied(ks, h, off, src, |src|);
            there.Some? && Copied(ks, h, off, there.value, |src|) == Some(src)
  {
    CopyIsTransform(ks, h, off, src);
    var t := Transformed(ks, h, off, src);
    CopyIsTransform(ks, h, off, t);
    forall i | 0 <= i < |src| ensures Transformed(ks, h, off, t)[i] == src[i] {
      if h.hdrSize <= off + i < h.tlvOff { XorTwice(src[i], ks(off + i - h.hdrSize)); }
    }
    assert Transformed(ks, h, off, t) == src;
  }
}
