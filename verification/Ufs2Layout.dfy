/** How a file lies in a UFS2 image, written down without the reader: pointer blocks are rows
    of little-endian numbers, data blocks are pieces of the file, each at its fragment. What
    is stored that way is what the reader returns.
 */
module Ufs2Layout {
  import opened Basics
  import opened LittleEndian
  import opened Modular
  import opened Ufs2

  // ---- pointer blocks -----------------------------------------------------------------

  type Pointer = v: int | 0 - TWO63 <= v < TWO63

  /** A signed number in two's complement, lowest byte first. */
  function PointerBytes(v: Pointer): (r: seq<Byte>)
    ensures |r| == 8
  {
    Le(if v >= 0 then v else v + TWO64, 8)
  }

  function PointerBlock(ps: seq<Pointer>): (r: seq<Byte>)
    ensures |r| == 8 * |ps|
  {
    if ps == [] then [] else PointerBytes(ps[0]) + PointerBlock(ps[1..])
  }

  /** The bytes hold `part` from `off` on. */
  ghost predicate Lies(bytes: seq<Byte>, off: int, part: seq<Byte>) {
    0 <= off && off + |part| <= |bytes| && bytes[off..off + |part|] == part
  }

  lemma LiesPart(bytes: seq<Byte>, off: int, block: seq<Byte>, at: nat, part: seq<Byte>)
    requires Lies(bytes, off, block) && at + |part| <= |block| && block[at..at + |part|] == part
    ensures Lies(bytes, off + at, part)
  {
    var x := bytes[off + at..off + at + |part|];
    forall k | 0 <= k < |part| ensures x[k] == part[k] {
      assert block[at..at + |part|][k] == block[at + k];
      assert block[at + k] == bytes[off..off + |block|][at + k];
    }
  }

  lemma PointerRead(v: Pointer)
    ensures Signed(PointerBytes(v)) == v
  {
    Fits(if v >= 0 then v else v + TWO64);
  }

  lemma {:induction false} PointerAt(ps: seq<Pointer>, i: nat, at: nat)
    requires i < |ps| && at == 8 * i
    ensures at + 8 <= |PointerBlock(ps)| && PointerBlock(ps)[at..at + 8] == PointerBytes(ps[i])
  {
    hide PointerBytes;
    var b, rest := PointerBlock(ps), PointerBlock(ps[1..]);
    if i > 0 {
      PointerAt(ps[1..], i - 1, at - 8);
      assert b[at..at + 8] == rest[at - 8..at];
    }
  }

  /** Entry i of a pointer block that lies at its fragment is pointer i. */
  lemma IndirectReads(m: Image, frag: int, ps: seq<Pointer>, i: nat)
    requires frag > 0 && i < |ps| && Lies(m.bytes, frag * m.fsize, PointerBlock(ps))
    ensures Indirect(m, frag, i) == ps[i]
  {
    hide PointerBlock, Indirect;
    EntryLies(m, frag, frag * m.fsize, ps, i, 8 * i);
  }

  /** A pointer block that is a hole, and an entry past the end of the image, give a hole. */
  lemma IndirectHole(m: Image, frag: int, i: nat)
    requires frag <= 0 || frag * m.fsize + 8 * i + 8 > |m.bytes|
    ensures Indirect(m, frag, i) == 0
  {
  }

  lemma EntryLies(m: Image, frag: int, off: int, ps: seq<Pointer>, i: nat, at: nat)
    requires frag > 0 && off == FragAt(m, frag) && at == 8 * i && i < |ps| && Lies(m.bytes, off, PointerBlock(ps))
    ensures Indirect(m, frag, i) == ps[i]
  {
    hide FragAt, PointerBytes, PointerBlock, Signed, Indirect, Lies;
    var b := PointerBytes(ps[i]);
    PointerAt(ps, i, at);
    LiesPart(m.bytes, off, PointerBlock(ps), at, b);
    IndirectIs(m, frag, i, off, at, b);
    PointerRead(ps[i]);
  }

  lemma IndirectIs(m: Image, frag: int, i: nat, off: int, at: nat, b: seq<Byte>)
    requires frag > 0 && off == FragAt(m, frag) && at == 8 * i && |b| == 8 && Lies(m.bytes, off + at, b)
    ensures Indirect(m, frag, i) == Signed(b)
  {
    hide Signed;
  }

  // ---- a stored file --------------------------------------------------------------------

  /** The pointer blocks of a file, by fragment. */
  type Tables = map<int, seq<Pointer>>

  ghost predicate TablesLie(m: Image, n: nat, tables: Tables) {
    forall f :: f in tables ==>
      && f > 0 && |tables[f]| == n
      && Lies(m.bytes, f * m.fsize, PointerBlock(tables[f]))
  }

  /** Entry i of the table at ptr; a pointer that is not positive is a hole. */
  function Entry(tables: Tables, ptr: int, i: nat): int
  {
    if ptr > 0 && ptr in tables && i < |tables[ptr]| then tables[ptr][i] else 0
  }

  predicate Known(tables: Tables, ptr: int) {
    ptr <= 0 || ptr in tables
  }

  function Address(tables: Tables, d: Dinode, p: Path): int
    requires ValidDinode(d) && (p.Direct? ==> p.i < DIRECT)
  {
    match p
    case Direct(i) => d.db[i]
    case Single(a) => Entry(tables, d.ib[0], a)
    case Double(a, b) => Entry(tables, Entry(tables, d.ib[1], a), b)
    case Triple(a, b, c) => Entry(tables, Entry(tables, Entry(tables, d.ib[2], a), b), c)
  }

  /** Every table on the way is there. */
  predicate PathKnown(tables: Tables, d: Dinode, p: Path)
    requires ValidDinode(d)
  {
    match p
    case Direct(i) => true
    case Single(a) => Known(tables, d.ib[0])
    case Double(a, b) => Known(tables, d.ib[1]) && Known(tables, Entry(tables, d.ib[1], a))
    case Triple(a, b, c) =>
      && Known(tables, d.ib[2]) && Known(tables, Entry(tables, d.ib[2], a))
      && Known(tables, Entry(tables, Entry(tables, d.ib[2], a), b))
  }

  /** Block k of the file, the last one as long as the file reaches. */
  function Piece(file: seq<Byte>, bsize: nat, k: nat): seq<Byte>
    requires k * bsize <= |file|
  {
    file[k * bsize..Min(|file|, k * bsize + bsize)]
  }

  ghost predicate PieceLies(m: Image, frag: int, piece: seq<Byte>) {
    if frag <= 0 then forall i :: 0 <= i < |piece| ==> piece[i] == 0
    else Lies(m.bytes, frag * m.fsize, piece)
  }

  ghost predicate BlockLies(m: Image, d: Dinode, tables: Tables, file: seq<Byte>, p: Path)
    requires ValidDinode(d) && (p.Direct? ==> p.i < DIRECT)
  {
    var k := Block(p, m.bsize / 8);
    k * m.bsize < |file| ==>
      PathKnown(tables, d, p) && PieceLies(m, Address(tables, d, p), Piece(file, m.bsize, k))
  }

  /** The image stores the file: at the end of every path lies the block of the file that the
      path stands for, counted from the front. */
  ghost predicate Stored(m: Image, d: Dinode, tables: Tables, file: seq<Byte>) {
    && ValidImage(m) && ValidDinode(d) && d.size == |file|
    && |file| <= Capacity(m.bsize / 8) * m.bsize
    && TablesLie(m, m.bsize / 8, tables)
    && forall p :: InRange(p, m.bsize / 8) ==> BlockLies(m, d, tables, file, p)
  }

  lemma EntryReads(m: Image, n: nat, tables: Tables, ptr: int, i: nat)
    requires TablesLie(m, n, tables) && Known(tables, ptr) && i < n
    ensures Indirect(m, ptr, i) == Entry(tables, ptr, i)
  {
    if ptr > 0 {
      IndirectReads(m, ptr, tables[ptr], i);
    }
  }

  lemma FollowReads(m: Image, n: nat, d: Dinode, tables: Tables, p: Path)
    requires TablesLie(m, n, tables) && ValidDinode(d) && InRange(p, n) && PathKnown(tables, d, p)
    ensures Follow(m, d, p) == Address(tables, d, p)
  {
    hide TablesLie, Indirect, Entry, Known;
    match p {
      case Direct(i) =>
      case Single(a) => EntryReads(m, n, tables, d.ib[0], a);
      case Double(a, b) =>
        EntryReads(m, n, tables, d.ib[1], a);
        EntryReads(m, n, tables, Entry(tables, d.ib[1], a), b);
      case Triple(a, b, c) =>
        EntryReads(m, n, tables, d.ib[2], a);
        EntryReads(m, n, tables, Entry(tables, d.ib[2], a), b);
        EntryReads(m, n, tables, Entry(tables, Entry(tables, d.ib[2], a), b), c);
    }
  }

  lemma PieceByte(m: Image, frag: int, file: seq<Byte>, k: nat, boff: nat)
    requires boff < m.bsize && k * m.bsize + boff < |file| && PieceLies(m, frag, Piece(file, m.bsize, k))
    ensures BlockByte(m, frag, boff, 0) == Some(file[k * m.bsize + boff])
  {
    var piece := Piece(file, m.bsize, k);
    assert piece[boff] == file[k * m.bsize + boff];
    if frag > 0 {
      var off := FragAt(m, frag);
      assert m.bytes[off..off + |piece|][boff] == m.bytes[off + boff];
    }
  }

  /** Every byte of a stored file is the byte the reader finds. */
  lemma FileByteIs(m: Image, d: Dinode, tables: Tables, file: seq<Byte>, pos: nat)
    requires Stored(m, d, tables, file) && pos < |file|
    ensures FileByte(m, d, pos) == Some(file[pos])
  {
    hide TablesLie, Follow, Address, PathKnown, PieceLies, Piece, BlockByte, Capacity, InRange, Route, Block, BlockAddr;
    var n, lbn, boff := m.bsize / 8, BlockNo(m, pos), BlockOff(m, pos);
    Place(m, pos, Capacity(n));
    CapacityZero();
    BlockAddrFollows(m, d, lbn);
    var p := Route(lbn, n);
    DirectInRange(p, n);
    assert BlockLies(m, d, tables, file, p);
    hide BlockNo, BlockOff;
    FollowReads(m, n, d, tables, p);
    PieceByte(m, Address(tables, d, p), file, lbn, boff);
  }

  lemma Place(m: Image, pos: nat, blocks: nat)
    requires m.bsize > 0 && pos < blocks * m.bsize
    ensures pos == BlockNo(m, pos) * m.bsize + BlockOff(m, pos) && BlockNo(m, pos) < blocks
  {
    DivMod(pos, m.bsize);
    DivLess(pos, blocks, m.bsize);
  }

  lemma CapacityZero()
    ensures Capacity(0) == DIRECT
  {
  }

  lemma DirectInRange(p: Path, n: nat)
    requires InRange(p, n)
    ensures p.Direct? ==> p.i < DIRECT
  {
  }

  /** A read of a stored file returns the file, through direct, single, double and triple
      blocks and holes alike. */
  lemma StoredFileIsRead(m: Image, d: Dinode, tables: Tables, file: seq<Byte>, off: nat, want: nat, r: Option<seq<Byte>>)
    requires Stored(m, d, tables, file) && off + want <= |file| && Outcome(m, d, off, want, r)
    ensures r == Some(file[off..off + want])
  {
    hide Stored, FileByte, Outcome;
    StoredValid(m, d, tables, file);
    forall i: nat | off <= i < off + want ensures Readable(m, d, i) {
      FileByteIs(m, d, tables, file, i);
    }
    ReadableIsComplete(m, d, off, want, r);
    var x := file[off..off + want];
    forall i: nat | i < want ensures FileByte(m, d, off + i) == Some(x[i]) {
      FileByteIs(m, d, tables, file, off + i);
    }
    HoldsUnique(m, d, off, r.value, x);
  }

  lemma StoredValid(m: Image, d: Dinode, tables: Tables, file: seq<Byte>)
    requires Stored(m, d, tables, file)
    ensures ValidImage(m) && ValidDinode(d)
  {
  }
}
