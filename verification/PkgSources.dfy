/** The lazy read chain of a package: a window into the host file, sub-ranges, AES-XTS sectors
    and compressed blocks, stacked on each other. Each layer answers reads by reading the
    layer below, and stands for one flat image. The decompressor is a parameter.
 */
module PkgSources {
  import opened Basics
  import opened Modular
  import opened XtsSectors

  type Positive = n: nat | n > 0 witness 1

  const SECTOR: nat := 0x1000

  function Zeros(n: nat): (r: Bytes)
    ensures |r| == n
  {
    seq(n, i => 0)
  }

  /** The compressed layer's header: block size, number of blocks, block offsets. */
  datatype BlockMap = BlockMap(bs: Positive, blocks: nat, offsets: seq<nat>, inflate: Bytes -> Bytes)

  datatype Source =
    | Raw(file: Bytes, base: nat)
    | Sub(inner: Source, off: nat)
    | Xts(inner: Source, keys: Keys, skip: nat)
    | Pfsc(inner: Source, bm: BlockMap)

  predicate Shaped(bm: BlockMap) {
    && |bm.offsets| == bm.blocks + 1
    && forall i :: 0 <= i < bm.blocks ==> bm.offsets[i] <= bm.offsets[i + 1]
  }

  /** Byte p of the image the source stands for. */
  function Flat(src: Source, p: nat): bv8
    decreases src, 0
  {
    match src
    case Raw(file, base) => At(file, base + p)
    case Sub(inner, off) => Flat(inner, off + p)
    case Xts(inner, keys, skip) => At(SectorOf(inner, keys, skip, p / SECTOR), p % SECTOR)
    case Pfsc(inner, bm) =>
      if Shaped(bm) && p / bm.bs < bm.blocks then At(BlockOf(inner, bm, p / bm.bs), p % bm.bs) else 0
  }

  /** Bytes [off, off+len) of the image. */
  function Slice(src: Source, off: nat, len: nat): (r: Bytes)
    ensures |r| == len
    decreases src, 1
  {
    seq(len, i requires 0 <= i < len => Flat(src, off + i))
  }

  /** Sector si of the decrypted image; the sectors below `skip` are plain. */
  function SectorOf(inner: Source, keys: Keys, skip: nat, si: nat): Bytes
    decreases inner, 2
  {
    var raw := Slice(inner, si * SECTOR, SECTOR);
    if si >= skip then Decrypted(keys, keys.tweak(NumberBlock(si)), raw) else raw
  }

  /** The stored bytes of block bi. */
  function Stored(inner: Source, bm: BlockMap, bi: nat): Bytes
    requires Shaped(bm) && bi < bm.blocks
    decreases inner, 2
  {
    Slice(inner, bm.offsets[bi], bm.offsets[bi + 1] - bm.offsets[bi])
  }

  /** Block bi of the plain image: a block stored in full size is not compressed. */
  function BlockOf(inner: Source, bm: BlockMap, bi: nat): Bytes
    requires Shaped(bm) && bi < bm.blocks
    decreases inner, 3
  {
    var comp := Stored(inner, bm, bi);
    if |comp| == bm.bs then comp else bm.inflate(comp)
  }

  /** The block buffer after decompressing into it: what the decompressor did not write
      stays as it was. */
  function Overlay(block: Bytes, data: Bytes): (r: Bytes)
    ensures |r| == |block|
  {
    var n := Min(|data|, |block|);
    data[..n] + block[n..]
  }

  /** Block bi of the image in full size: a block that is too short ends in zeros. */
  function PlainBlock(inner: Source, bm: BlockMap, bi: nat): (r: Bytes)
    requires Shaped(bm) && bi < bm.blocks
    ensures |r| == bm.bs
  {
    Overlay(Zeros(bm.bs), BlockOf(inner, bm, bi))
  }

  /** Where block bi is too short, the block before it is zero. */
  ghost predicate Clean(inner: Source, bm: BlockMap, bi: nat)
    requires Shaped(bm) && 0 < bi < bm.blocks
  {
    var before := PlainBlock(inner, bm, bi - 1);
    forall i :: |BlockOf(inner, bm, bi)| <= i < bm.bs ==> before[i] == 0
  }

  ghost predicate Tame(inner: Source, bm: BlockMap)
    requires Shaped(bm)
  {
    forall bi: nat :: 0 < bi < bm.blocks ==> Clean(inner, bm, bi)
  }

  /** In particular if every block decompresses to exactly one block. */
  lemma FullBlocksAreTame(inner: Source, bm: BlockMap)
    requires Shaped(bm) && forall bi: nat :: bi < bm.blocks ==> |BlockOf(inner, bm, bi)| == bm.bs
    ensures Tame(inner, bm)
  {
    hide BlockOf, Shaped, PlainBlock;
  }

  ghost predicate WellFormed(src: Source) {
    match src
    case Raw(file, base) => true
    case Sub(inner, off) => WellFormed(inner)
    case Xts(inner, keys, skip) => Lawful(keys) && WellFormed(inner)
    case Pfsc(inner, bm) => Shaped(bm) && Tame(inner, bm) && WellFormed(inner)
  }

  lemma SliceConcat(src: Source, off: nat, a: nat, b: nat)
    ensures Slice(src, off, a) + Slice(src, off + a, b) == Slice(src, off, a + b)
  {
    hide Flat;
    var x, y, z := Slice(src, off, a), Slice(src, off + a, b), Slice(src, off, a + b);
    forall i | 0 <= i < a + b ensures (x + y)[i] == z[i] {
      if i >= a {
        assert (x + y)[i] == y[i - a] == Flat(src, off + a + (i - a));
      }
    }
  }

  lemma SliceIs(src: Source, off: nat, s: Bytes)
    requires forall i :: 0 <= i < |s| ==> s[i] == Flat(src, off + i)
    ensures s == Slice(src, off, |s|)
  {
    hide Flat;
  }

  /** Part of a sector is a slice of the image. */
  lemma SectorSlice(src: Source, p: nat, take: nat)
    requires src.Xts? && take <= SECTOR - p % SECTOR
    requires |SectorOf(src.inner, src.keys, src.skip, p / SECTOR)| == SECTOR
    ensures SectorOf(src.inner, src.keys, src.skip, p / SECTOR)[p % SECTOR..p % SECTOR + take] == Slice(src, p, take)
  {
    hide SectorOf, Slice;
    var part := SectorOf(src.inner, src.keys, src.skip, p / SECTOR)[p % SECTOR..p % SECTOR + take];
    forall i | 0 <= i < take ensures part[i] == Flat(src, p + i) {
      InUnit(p, SECTOR, i);
    }
    SliceIs(src, p, part);
  }

  lemma PlainAt(inner: Source, bm: BlockMap, bi: nat, i: nat)
    requires Shaped(bm) && bi < bm.blocks && i < bm.bs
    ensures PlainBlock(inner, bm, bi)[i] == At(BlockOf(inner, bm, bi), i)
  {
    hide BlockOf, Shaped;
  }

  lemma BlockSlice(src: Source, p: nat, take: nat)
    requires src.Pfsc? && Shaped(src.bm) && p / src.bm.bs < src.bm.blocks && take <= src.bm.bs - p % src.bm.bs
    ensures PlainBlock(src.inner, src.bm, p / src.bm.bs)[p % src.bm.bs..p % src.bm.bs + take] == Slice(src, p, take)
  {
    hide BlockOf, PlainBlock, Shaped, Slice, At;
    var part := PlainBlock(src.inner, src.bm, p / src.bm.bs)[p % src.bm.bs..p % src.bm.bs + take];
    forall i | 0 <= i < take ensures part[i] == Flat(src, p + i) {
      InUnit(p, src.bm.bs, i);
      PlainAt(src.inner, src.bm, p / src.bm.bs, p % src.bm.bs + i);
    }
    SliceIs(src, p, part);
  }

  /** Past the last block the image is zero. */
  lemma PastEnd(src: Source, p: nat, len: nat)
    requires src.Pfsc? && Shaped(src.bm) && p / src.bm.bs >= src.bm.blocks
    ensures Slice(src, p, len) == Zeros(len)
  {
    hide BlockOf, Shaped, Slice;
    var zeros := Zeros(len);
    forall i | 0 <= i < len ensures zeros[i] == Flat(src, p + i) {
      DivMono(p, p + i, src.bm.bs);
    }
    SliceIs(src, p, zeros);
  }

  // ---- the compressed layer's loop -----------------------------------------------------

  function NextBuffer(inner: Source, bm: BlockMap, buffer: Bytes, bi: nat): (r: Bytes)
    requires Shaped(bm) && bi < bm.blocks
    ensures |r| == |buffer|
  {
    Overlay(buffer, BlockOf(inner, bm, bi))
  }

  /** What the loop returns when it starts with the given buffer. */
  function Loop(inner: Source, bm: BlockMap, buffer: Bytes, off: nat, len: nat): Bytes
    requires Shaped(bm) && |buffer| == bm.bs
    decreases len
  {
    if len == 0 then [] else
    var bi, bo := off / bm.bs, off % bm.bs;
    if bi >= bm.blocks then Zeros(len) else
    var next := NextBuffer(inner, bm, buffer, bi);
    var take := Min(bm.bs - bo, len);
    next[bo..bo + take] + Loop(inner, bm, next, off + take, len - take)
  }

  /** What the buffer may hold before block bi: nothing yet, or the block before. */
  ghost predicate Fresh(inner: Source, bm: BlockMap, buffer: Bytes, bi: nat)
    requires Shaped(bm)
  {
    buffer == Zeros(bm.bs) || (0 < bi <= bm.blocks && buffer == PlainBlock(inner, bm, bi - 1))
  }

  lemma NextIsPlain(inner: Source, bm: BlockMap, buffer: Bytes, bi: nat)
    requires Shaped(bm) && bi < bm.blocks && Fresh(inner, bm, buffer, bi) && (bi > 0 ==> Clean(inner, bm, bi))
    ensures NextBuffer(inner, bm, buffer, bi) == PlainBlock(inner, bm, bi)
  {
    hide BlockOf, Shaped;
    var data := BlockOf(inner, bm, bi);
    var x, y := Overlay(buffer, data), PlainBlock(inner, bm, bi);
    forall i | 0 <= i < bm.bs ensures x[i] == y[i] {
    }
  }

  /** The loop returns the slice of the image, if every short block is clean. */
  lemma {:induction false} LoopIsSlice(src: Source, buffer: Bytes, off: nat, len: nat)
    requires src.Pfsc? && Shaped(src.bm) && Tame(src.inner, src.bm)
    requires Fresh(src.inner, src.bm, buffer, off / src.bm.bs) && |buffer| == src.bm.bs
    ensures Loop(src.inner, src.bm, buffer, off, len) == Slice(src, off, len)
    decreases len
  {
    hide *;
    var bm := src.bm;
    if len == 0 {
      LoopNone(src.inner, bm, buffer, off);
      SliceNone(src, off);
      return;
    }
    LoopStep(src.inner, bm, buffer, off, len);
    var bi := off / bm.bs;
    if bi >= bm.blocks {
      PastEnd(src, off, len);
    } else {
      var take := Min(bm.bs - off % bm.bs, len);
      MinIs(bm.bs - off % bm.bs, len);
      var next := PlainBlock(src.inner, bm, bi);
      TameAt(src.inner, bm, bi);
      NextIsPlain(src.inner, bm, buffer, bi);
      BlockSlice(src, off, take);
      SliceConcat(src, off, take, len - take);
      if take < len {
        NextUnit(off, bm.bs);
        FreshNext(src.inner, bm, bi);
        LoopIsSlice(src, next, off + take, len - take);
      } else {
        LoopNone(src.inner, bm, next, off + take);
        SliceNone(src, off + take);
      }
    }
  }

  lemma MinIs(a: nat, b: nat)
    ensures Min(a, b) == if a < b then a else b
  {
  }

  lemma TameAt(inner: Source, bm: BlockMap, bi: nat)
    requires Shaped(bm) && Tame(inner, bm) && bi < bm.blocks
    ensures bi > 0 ==> Clean(inner, bm, bi)
  {
  }

  lemma FreshNext(inner: Source, bm: BlockMap, bi: nat)
    requires Shaped(bm) && bi < bm.blocks
    ensures Fresh(inner, bm, PlainBlock(inner, bm, bi), bi + 1)
  {
  }

  lemma FreshStart(inner: Source, bm: BlockMap, bi: nat)
    requires Shaped(bm)
    ensures Fresh(inner, bm, Zeros(bm.bs), bi)
  {
  }

  lemma NextUnit(p: nat, n: nat)
    requires n > 0
    ensures (p + (n - p % n)) / n == p / n + 1
  {
    DivMod(p, n);
    DivUnique(p + (n - p % n), p / n + 1, 0, n);
  }

  /** A read of two blocks of which the second is short and not clean is no slice. */
  lemma UncleanReadDiffers(src: Source, bi: nat)
    requires src.Pfsc? && Shaped(src.bm) && 0 < bi < src.bm.blocks && !Clean(src.inner, src.bm, bi)
    ensures var bs := src.bm.bs;
            Loop(src.inner, src.bm, Zeros(bs), (bi - 1) * bs, 2 * bs) != Slice(src, (bi - 1) * bs, 2 * bs)
  {
    hide Slice, BlockOf, PlainBlock, Shaped, Loop, At, Overlay, NextBuffer, Fresh, Flat;
    var inner, bm, bs := src.inner, src.bm, src.bm.bs;
    var first, second := PlainBlock(inner, bm, bi - 1), NextBuffer(inner, bm, PlainBlock(inner, bm, bi - 1), bi);
    TwoBlocks(inner, bm, bi);
    var i :| |BlockOf(inner, bm, bi)| <= i < bs && first[i] != 0;
    StaleAt(inner, bm, first, bi, i);
    FlatAt(src, bi, i);
    SliceAt(src, (bi - 1) * bs, 2 * bs, bs + i);
    assert (bi - 1) * bs + (bs + i) == bi * bs + i;
    assert (first + second)[bs + i] == second[i];
  }

  lemma TwoBlocks(inner: Source, bm: BlockMap, bi: nat)
    requires Shaped(bm) && 0 < bi < bm.blocks
    ensures var bs := bm.bs;
            var first := PlainBlock(inner, bm, bi - 1);
            Loop(inner, bm, Zeros(bs), (bi - 1) * bs, 2 * bs) == first + NextBuffer(inner, bm, first, bi)
  {
    hide *;
    var bs: nat := bm.bs;
    var p := (bi - 1) * bs;
    assert p + bs == bi * bs;
    DivUnique(p, bi - 1, 0, bs);
    DivUnique(p + bs, bi, 0, bs);
    TwoBlocksAt(inner, bm, bi, p);
  }

  lemma TwoBlocksAt(inner: Source, bm: BlockMap, bi: nat, p: nat)
    requires Shaped(bm) && 0 < bi < bm.blocks
    requires p / bm.bs == bi - 1 && p % bm.bs == 0 && (p + bm.bs) / bm.bs == bi && (p + bm.bs) % bm.bs == 0
    ensures var first := PlainBlock(inner, bm, bi - 1);
            Loop(inner, bm, Zeros(bm.bs), p, 2 * bm.bs) == first + NextBuffer(inner, bm, first, bi)
  {
    hide *;
    var bs: nat := bm.bs;
    LoopStep(inner, bm, Zeros(bs), p, 2 * bs);
    PlainIsNext(inner, bm, bi - 1);
    var first := PlainBlock(inner, bm, bi - 1);
    var second := NextBuffer(inner, bm, first, bi);
    MinIs(bs, 2 * bs);
    MinIs(bs, bs);
    LoopStep(inner, bm, first, p + bs, bs);
    LoopNone(inner, bm, second, p + bs + bs);
    assert first[0..bs] == first && second[0..bs] == second;
    assert second + [] == second;
  }

  lemma PlainIsNext(inner: Source, bm: BlockMap, bi: nat)
    requires Shaped(bm) && bi < bm.blocks
    ensures NextBuffer(inner, bm, Zeros(bm.bs), bi) == PlainBlock(inner, bm, bi)
  {
  }

  lemma StaleAt(inner: Source, bm: BlockMap, buffer: Bytes, bi: nat, i: nat)
    requires Shaped(bm) && bi < bm.blocks && |buffer| == bm.bs && |BlockOf(inner, bm, bi)| <= i < bm.bs
    ensures NextBuffer(inner, bm, buffer, bi)[i] == buffer[i]
  {
    hide BlockOf, Shaped;
  }

  lemma FlatAt(src: Source, bi: nat, i: nat)
    requires src.Pfsc? && Shaped(src.bm) && bi < src.bm.blocks && |BlockOf(src.inner, src.bm, bi)| <= i < src.bm.bs
    ensures Flat(src, bi * src.bm.bs + i) == 0
  {
    hide BlockOf, Shaped;
    DivUnique(bi * src.bm.bs + i, bi, i, src.bm.bs);
  }

  lemma SliceAt(src: Source, off: nat, len: nat, i: nat)
    requires i < len
    ensures Slice(src, off, len)[i] == Flat(src, off + i)
  {
    hide Flat;
  }

  ghost predicate ReadsAgree(src: Source)
    requires src.Pfsc? && Shaped(src.bm)
  {
    forall off: nat, len: nat :: Loop(src.inner, src.bm, Zeros(src.bm.bs), off, len) == Slice(src, off, len)
  }

  /** All reads agree with one flat image if and only if every short block follows a block
      that is zero where the short one has nothing. */
  lemma ReadsAgreeIffTame(src: Source)
    requires src.Pfsc? && Shaped(src.bm)
    ensures ReadsAgree(src) <==> Tame(src.inner, src.bm)
  {
    hide Slice, Shaped, Loop, Clean, Fresh;
    if Tame(src.inner, src.bm) {
      forall off: nat, len: nat
        ensures Loop(src.inner, src.bm, Zeros(src.bm.bs), off, len) == Slice(src, off, len)
      {
        FreshStart(src.inner, src.bm, off / src.bm.bs);
        LoopIsSlice(src, Zeros(src.bm.bs), off, len);
      }
    } else {
      var bi: nat :| 0 < bi < src.bm.blocks && !Clean(src.inner, src.bm, bi);
      UncleanReadDiffers(src, bi);
    }
  }

  lemma LoopStep(inner: Source, bm: BlockMap, buffer: Bytes, off: nat, len: nat)
    requires Shaped(bm) && |buffer| == bm.bs && len > 0
    ensures off / bm.bs >= bm.blocks ==> Loop(inner, bm, buffer, off, len) == Zeros(len)
    ensures off / bm.bs < bm.blocks ==>
              var next, take := NextBuffer(inner, bm, buffer, off / bm.bs), Min(bm.bs - off % bm.bs, len);
              Loop(inner, bm, buffer, off, len) ==
              next[off % bm.bs..off % bm.bs + take] + Loop(inner, bm, next, off + take, len - take)
  {
    hide Shaped, Overlay;
  }

  lemma SliceNone(src: Source, off: nat)
    ensures Slice(src, off, 0) == []
  {
  }

  lemma LoopNone(inner: Source, bm: BlockMap, buffer: Bytes, off: nat)
    requires Shaped(bm) && |buffer| == bm.bs
    ensures Loop(inner, bm, buffer, off, 0) == []
  {
  }

  lemma OverlayAll(block: Bytes, data: Bytes)
    requires |data| == |block|
    ensures Overlay(block, data) == data
  {
  }

  // ---- reading ---------------------------------------------------------------------------

  /** Zero-filled past the end of the host file. */
  method RawRead(file: Bytes, at: nat, len: nat) returns (dst: Bytes)
    ensures |dst| == len && forall i :: 0 <= i < len ==> dst[i] == At(file, at + i)
  {
    dst := Zeros(len);
    if at < |file| {
      var n := Min(len, |file| - at);
      dst := file[at..at + n] + dst[n..];
    }
  }

  /** A read of any chain of layers is the slice of the flat image. */
  method Read(src: Source, off: nat, len: nat) returns (dst: Bytes)
    requires WellFormed(src)
    ensures dst == Slice(src, off, len)
    decreases src, 0
  {
    hide Slice, Loop, Tame, Shaped, Fresh;
    match src {
      case Raw(file, base) =>
        dst := RawRead(file, base + off, len);
        RawSlice(src, off, dst);
      case Sub(inner, o) =>
        dst := Read(inner, o + off, len);
        SubSlice(src, off, len);
      case Xts(inner, keys, skip) =>
        dst := XtsRead(src, off, len);
      case Pfsc(inner, bm) =>
        dst := PfscRead(inner, bm, off, len);
        FreshStart(inner, bm, off / bm.bs);
        LoopIsSlice(src, Zeros(bm.bs), off, len);
    }
  }

  lemma RawSlice(src: Source, off: nat, dst: Bytes)
    requires src.Raw? && forall i :: 0 <= i < |dst| ==> dst[i] == At(src.file, src.base + off + i)
    ensures dst == Slice(src, off, |dst|)
  {
    hide Slice, At;
    forall i | 0 <= i < |dst| ensures dst[i] == Flat(src, off + i) {
      assert src.base + off + i == src.base + (off + i);
    }
    SliceIs(src, off, dst);
  }

  lemma SubSlice(src: Source, off: nat, len: nat)
    requires src.Sub?
    ensures Slice(src.inner, src.off + off, len) == Slice(src, off, len)
  {
    var s := Slice(src.inner, src.off + off, len);
    forall i | 0 <= i < len ensures s[i] == Flat(src, off + i) {
      assert src.off + off + i == src.off + (off + i);
    }
    SliceIs(src, off, s);
  }

  method XtsRead(src: Source, off: nat, len: nat) returns (dst: Bytes)
    requires src.Xts? && WellFormed(src)
    ensures dst == Slice(src, off, len)
    decreases src.inner, 2
  {
    hide Slice, SectorOf, Lawful;
    dst := [];
    SliceNone(src, off);
    var p, end := off, off + len;
    while p < end
      invariant off <= p <= end && dst == Slice(src, off, p - off)
    {
      var si, so := p / SECTOR, p % SECTOR;
      var take := Min(SECTOR - so, end - p);
      var sector := XtsSector(src, si);
      SectorSlice(src, p, take);
      SliceConcat(src, off, p - off, take);
      dst := dst + sector[so..so + take];
      p := p + take;
    }
  }

  /** The sector buffer: filled from below and, past the plain region, decrypted in place. */
  method XtsSector(src: Source, si: nat) returns (sector: Bytes)
    requires src.Xts? && WellFormed(src)
    ensures |sector| == SECTOR && sector == SectorOf(src.inner, src.keys, src.skip, si)
    decreases src.inner, 1
  {
    hide Slice, Lawful, Decrypted;
    sector := Read(src.inner, si * SECTOR, SECTOR);
    if si >= src.skip {
      var raw := sector;
      var buf := new bv8[SECTOR](i requires 0 <= i < SECTOR => raw[i]);
      assert buf[..] == raw;
      DecryptSector(src.keys, si, buf);
      EncryptInvertsDecrypt(src.keys, src.keys.tweak(NumberBlock(si)), raw);
      sector := buf[..];
    }
  }

  /** Holds of every block map whose offsets ascend, sound or not. */
  method PfscRead(inner: Source, bm: BlockMap, off: nat, len: nat) returns (dst: Bytes)
    requires Shaped(bm) && WellFormed(inner)
    ensures dst == Loop(inner, bm, Zeros(bm.bs), off, len)
    decreases inner, 2
  {
    hide Slice, Shaped, Overlay, WellFormed, Loop, NextBuffer, Zeros;
    dst := [];
    var block := Zeros(bm.bs);
    var o: nat, left: nat := off, len;
    while left > 0
      invariant |block| == bm.bs
      invariant dst + Loop(inner, bm, block, o, left) == Loop(inner, bm, Zeros(bm.bs), off, len)
      decreases left
    {
      var bi, bo := o / bm.bs, o % bm.bs;
      LoopStep(inner, bm, block, o, left);
      if bi + 1 > bm.blocks {
        return dst + Zeros(left);
      }
      var next := Decode(inner, bm, block, bi);
      var take := Min(bm.bs - bo, left);
      Regrouped(dst, next[bo..bo + take], Loop(inner, bm, next, o + take, left - take));
      block := next;
      dst := dst + block[bo..bo + take];
      o := o + take;
      left := left - take;
    }
    LoopNone(inner, bm, block, o);
  }

  lemma Regrouped(x: Bytes, y: Bytes, z: Bytes)
    ensures x + (y + z) == x + y + z
  {
  }

  /** One block of the loop, decoded into the shared buffer. */
  method Decode(inner: Source, bm: BlockMap, buffer: Bytes, bi: nat) returns (block: Bytes)
    requires Shaped(bm) && WellFormed(inner) && |buffer| == bm.bs && bi < bm.blocks
    ensures block == NextBuffer(inner, bm, buffer, bi)
    decreases inner, 1
  {
    hide Slice, Shaped, Overlay, WellFormed;
    ShapedAt(bm, bi);
    var a, b := bm.offsets[bi], bm.offsets[bi + 1];
    var comp := Read(inner, a, b - a);
    assert comp == Stored(inner, bm, bi);
    if b - a == bm.bs {
      OverlayAll(buffer, comp);
      return comp;
    }
    return Overlay(buffer, bm.inflate(comp));
  }

  lemma ShapedAt(bm: BlockMap, i: nat)
    requires Shaped(bm) && i < bm.blocks
    ensures |bm.offsets| == bm.blocks + 1 && bm.offsets[i] <= bm.offsets[i + 1]
  {
  }

  datatype Node = Node(size: nat, startBlock: nat)

  /** Bytes of a file in the inner image, clamped to its size. */
  method ReadNode(inner: Source, innerBs: nat, n: Node, off: int, len: int) returns (r: Option<Bytes>)
    requires WellFormed(inner)
    ensures off < 0 || len < 0 ==> r == None
    ensures off >= 0 && len >= 0 && off >= n.size ==> r == Some([])
    ensures 0 <= off < n.size && len >= 0 ==>
              r == Some(Slice(inner, n.startBlock * innerBs + off, Min(len, n.size - off)))
  {
    if off < 0 || len < 0 {
      return None;
    }
    if off >= n.size {
      return Some([]);
    }
    var take := Min(len, n.size - off);
    var dst := Read(inner, n.startBlock * innerBs + off, take);
    return Some(dst);
  }

  // ---- a block that does not decompress ---------------------------------------------------

  /** That blocks have full size is needed: the result of the decompressor is not looked at
      and the buffer is shared by all blocks of one read, so a corrupt block reads as the
      block before it or as zeros, depending on where the read began. */
  lemma CorruptBlockReadsStale()
    ensures exists inner, bm :: Shaped(bm) && WellFormed(inner) && bm.bs == 2 &&
              Loop(inner, bm, Zeros(2), 0, 4)[2..] != Loop(inner, bm, Zeros(2), 2, 2)
  {
    var inner := Raw([1, 2, 3], 0);
    var bm := BlockMap(2, 2, [0, 2, 3], (x: Bytes) => []);
    assert Shaped(bm);
    assert BlockOf(inner, bm, 0) == [1, 2] by {
      assert Slice(inner, 0, 2) == [1, 2];
    }
    assert BlockOf(inner, bm, 1) == [];
    CorruptBuffers(inner, bm);
    CorruptLoop(inner, bm);
  }

  lemma CorruptBuffers(inner: Source, bm: BlockMap)
    requires Shaped(bm) && bm.bs == 2 && bm.blocks == 2
    requires BlockOf(inner, bm, 0) == [1, 2] && BlockOf(inner, bm, 1) == []
    ensures NextBuffer(inner, bm, Zeros(2), 0) == [1, 2]
    ensures NextBuffer(inner, bm, [1, 2], 1) == [1, 2] && NextBuffer(inner, bm, Zeros(2), 1) == [0, 0]
  {
    hide BlockOf, Shaped;
    assert Zeros(2) == [0, 0];
  }

  lemma CorruptLoop(inner: Source, bm: BlockMap)
    requires Shaped(bm) && bm.bs == 2 && bm.blocks == 2
    requires NextBuffer(inner, bm, Zeros(2), 0) == [1, 2]
    requires NextBuffer(inner, bm, [1, 2], 1) == [1, 2] && NextBuffer(inner, bm, Zeros(2), 1) == [0, 0]
    ensures Loop(inner, bm, Zeros(2), 0, 4)[2..] == [1, 2] && Loop(inner, bm, Zeros(2), 2, 2) == [0, 0]
  {
    hide BlockOf, Shaped, NextBuffer, Zeros;
    assert Loop(inner, bm, [1, 2], 2, 2) == [1, 2] + [];
    assert Loop(inner, bm, Zeros(2), 2, 2) == [0, 0] + [];
    assert Loop(inner, bm, Zeros(2), 0, 4) == [1, 2] + Loop(inner, bm, [1, 2], 2, 2);
  }
}
