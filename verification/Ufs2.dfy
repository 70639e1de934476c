/** Block addressing and reads of a UFS2 inode: twelve direct pointers, then trees of
    pointer blocks one, two and three levels deep.
 */
module Ufs2 {
  import opened Basics
  import opened LittleEndian
  import opened Modular

  // ---- the index path of a block ---------------------------------------------------

  const DIRECT: nat := 12

  /** Where a block's address is kept. */
  datatype Path = Direct(i: nat) | Single(a: nat) | Double(a: nat, b: nat) | Triple(a: nat, b: nat, c: nat)

  function Route(lbn: nat, n: nat): Path
    requires n > 0 || lbn < DIRECT
  {
    if lbn < DIRECT then Direct(lbn) else
    var l := lbn - DIRECT;
    if l < n then Single(l) else
    var l := l - n;
    if l < n * n then Double(l / n, l % n) else
    var l := l - n * n;
    Triple(l / (n * n), (l / n) % n, l % n)
  }

  /** The block a path leads to, counted from the front of the file. */
  function Block(p: Path, n: nat): nat {
    match p
    case Direct(i) => i
    case Single(a) => DIRECT + a
    case Double(a, b) => DIRECT + n + (a * n + b)
    case Triple(a, b, c) => DIRECT + n + n * n + ((a * n + b) * n + c)
  }

  /** Every index lies inside its pointer block. */
  predicate InRange(p: Path, n: nat) {
    match p
    case Direct(i) => i < DIRECT
    case Single(a) => a < n
    case Double(a, b) => a < n && b < n
    case Triple(a, b, c) => a < n && b < n && c < n
  }

  function Capacity(n: nat): nat {
    DIRECT + n + n * n + n * n * n
  }

  lemma DoubleRoute(l: nat, n: nat)
    requires n > 0
    ensures l / n * n + l % n == l && l % n < n
    ensures l / n < n <==> l < n * n
  {
    DivMod(l, n);
    DivLess(l, n, n);
  }

  lemma TripleRoute(l: nat, n: nat)
    requires n > 0
    ensures n * n > 0 && (l / (n * n) * n + (l / n) % n) * n + l % n == l
    ensures (l / n) % n < n && l % n < n
    ensures l / (n * n) < n <==> l < n * n * n
  {
    DivTwice(l, n);
    DivMod(l / n, n);
    DivMod(l, n);
    DivLess(l, n, n * n);
    assert n * (n * n) == n * n * n;
  }

  /** The path leads back to its block, and is in range exactly below the capacity. */
  lemma RouteBlock(lbn: nat, n: nat)
    requires n > 0 || lbn < DIRECT
    ensures Block(Route(lbn, n), n) == lbn
    ensures InRange(Route(lbn, n), n) <==> lbn < Capacity(n)
  {
    if n == 0 {
      assert Capacity(0) == DIRECT;
    } else if lbn < DIRECT + n {
      RoomBeyond(n);
    } else if lbn < DIRECT + n + n * n {
      DoubleRouteBlock(lbn, n);
    } else {
      TripleRouteBlock(lbn, n);
    }
  }

  lemma RoomBeyond(n: nat)
    ensures n * n >= 0 && n * n * n >= 0 && Capacity(n) >= DIRECT + n + n * n
  {
  }

  lemma DoubleRouteBlock(lbn: nat, n: nat)
    requires n > 0 && DIRECT + n <= lbn < DIRECT + n + n * n
    ensures Block(Route(lbn, n), n) == lbn && InRange(Route(lbn, n), n) && lbn < Capacity(n)
  {
    RoomBeyond(n);
    DoubleRoute(lbn - DIRECT - n, n);
  }

  lemma TripleRouteBlock(lbn: nat, n: nat)
    requires n > 0 && lbn >= DIRECT + n + n * n
    ensures Block(Route(lbn, n), n) == lbn && (InRange(Route(lbn, n), n) <==> lbn < Capacity(n))
  {
    var l := lbn - DIRECT - n - n * n;
    TripleRoute(l, n);
    TripleRouteIs(l, n);
  }

  lemma DoubleBlock(a: nat, b: nat, n: nat)
    requires a < n && b < n
    ensures (a * n + b) / n == a && (a * n + b) % n == b && a * n + b < n * n
  {
    DivUnique(a * n + b, a, b, n);
    LessProduct(a, b, n, n);
  }

  lemma TripleBlock(a: nat, b: nat, c: nat, n: nat)
    requires a < n && b < n && c < n
    ensures var l := (a * n + b) * n + c;
            n * n > 0 && l / (n * n) == a && (l / n) % n == b && l % n == c && l < n * n * n
  {
    var m := a * n + b;
    var l := m * n + c;
    DivUnique(l, m, c, n);
    DivUnique(m, a, b, n);
    DivTwice(l, n);
    DivLess(l, n, n * n);
    assert n * (n * n) == n * n * n;
  }

  /** Every path in range is the path of the block it leads to, so the split is one-to-one. */
  lemma BlockRoute(p: Path, n: nat)
    requires n > 0 && InRange(p, n)
    ensures Route(Block(p, n), n) == p && Block(p, n) < Capacity(n)
  {
    match p {
      case Direct(i) => assert n * n >= 0 && n * n * n >= 0;
      case Single(a) => assert n * n >= 0 && n * n * n >= 0;
      case Double(a, b) => DoubleBlockRoute(a, b, n);
      case Triple(a, b, c) => TripleBlockRoute(a, b, c, n);
    }
  }

  lemma DoubleBlockRoute(a: nat, b: nat, n: nat)
    requires a < n && b < n
    ensures Route(Block(Double(a, b), n), n) == Double(a, b) && Block(Double(a, b), n) < Capacity(n)
  {
    var l := a * n + b;
    DoubleBlock(a, b, n);
    assert Route(DIRECT + n + l, n) == Double(l / n, l % n);
    assert n * n * n >= 0;
  }

  lemma TripleBlockRoute(a: nat, b: nat, c: nat, n: nat)
    requires a < n && b < n && c < n
    ensures Route(Block(Triple(a, b, c), n), n) == Triple(a, b, c) && Block(Triple(a, b, c), n) < Capacity(n)
  {
    var l := (a * n + b) * n + c;
    TripleBlock(a, b, c, n);
    TripleRouteIs(l, n);
  }

  lemma TripleRouteIs(l: nat, n: nat)
    requires n > 0 && n * n > 0
    ensures Route(DIRECT + n + n * n + l, n) == Triple(l / (n * n), (l / n) % n, l % n)
  {
  }

  // ---- the image -------------------------------------------------------------------

  datatype Dinode = Dinode(size: nat, db: seq<int>, ib: seq<int>)

  predicate ValidDinode(d: Dinode) {
    |d.db| == DIRECT && |d.ib| == 3
  }

  /** The mounted image: its bytes, block and fragment size. */
  datatype Image = Image(bytes: seq<Byte>, bsize: nat, fsize: nat)

  /** Other superblocks are refused; that the sizes are powers of two is not needed here. */
  predicate ValidImage(m: Image) {
    m.bsize > 0 && m.fsize > 0 && m.fsize <= m.bsize
  }

  function BlockNo(m: Image, pos: nat): nat
    requires m.bsize > 0
  {
    pos / m.bsize
  }

  function BlockOff(m: Image, pos: nat): (r: nat)
    requires m.bsize > 0
    ensures r < m.bsize
  {
    pos % m.bsize
  }

  /** Blocks of 1, 2 and 4 bytes hold no pointer: beyond the direct blocks the source then
      divides by zero. Up to `end` no such block is asked for. */
  predicate Addressable(m: Image, end: nat) {
    m.bsize >= 8 || end <= DIRECT * m.bsize
  }

  function ReadAt(m: Image, off: nat, len: nat): Option<seq<Byte>> {
    if off + len > |m.bytes| then None else Some(m.bytes[off..off + len])
  }

  const TWO63: nat := 0x8000_0000_0000_0000

  /** A 64-bit two's complement number, lowest byte first. */
  function Signed(b: seq<Byte>): int {
    var v := FromLe(b);
    if v < TWO63 then v else v - TWO64
  }

  /** Entry idx of the pointer block at fragment ptr: 0 for a hole or outside the image. */
  function Indirect(m: Image, ptr: int, idx: nat): int {
    if ptr <= 0 then 0 else
    match ReadAt(m, ptr * m.fsize + idx * 8, 8)
    case None => 0
    case Some(b) => Signed(b)
  }

  /** Following a path from the inode. */
  function Follow(m: Image, d: Dinode, p: Path): int
    requires ValidDinode(d) && (p.Direct? ==> p.i < DIRECT)
  {
    match p
    case Direct(i) => d.db[i]
    case Single(a) => Indirect(m, d.ib[0], a)
    case Double(a, b) => Indirect(m, Indirect(m, d.ib[1], a), b)
    case Triple(a, b, c) => Indirect(m, Indirect(m, Indirect(m, d.ib[2], a), b), c)
  }

  /** Fragment address of a logical block, by cases on ever smaller remainders; n pointers
      fit into a block. With n == 0 it is only asked for direct blocks. */
  function AddrIn(m: Image, d: Dinode, lbn: nat, n: nat): int
    requires ValidDinode(d)
  {
    if lbn < DIRECT then d.db[lbn] else if n == 0 then 0 else
    var l1 := lbn - DIRECT;
    if l1 < n then Indirect(m, d.ib[0], l1) else
    var l2 := l1 - n;
    if l2 < n * n then
      var mid := Indirect(m, d.ib[1], l2 / n);
      Indirect(m, mid, l2 % n)
    else
      var l3 := l2 - n * n;
      var top := Indirect(m, d.ib[2], l3 / (n * n));
      var mid := Indirect(m, top, (l3 / n) % n);
      Indirect(m, mid, l3 % n)
  }

  function BlockAddr(m: Image, d: Dinode, lbn: nat): int
    requires ValidImage(m) && ValidDinode(d)
  {
    AddrIn(m, d, lbn, m.bsize / 8)
  }

  /** The address is found at the end of the block's path. Below the capacity all indices
      on the path are in range, and no two blocks share a path. */
  lemma BlockAddrFollows(m: Image, d: Dinode, lbn: nat)
    requires ValidImage(m) && ValidDinode(d) && (m.bsize >= 8 || lbn < DIRECT)
    ensures var n := m.bsize / 8;
            && BlockAddr(m, d, lbn) == Follow(m, d, Route(lbn, n))
            && (InRange(Route(lbn, n), n) <==> lbn < Capacity(n))
            && Block(Route(lbn, n), n) == lbn
  {
    hide Indirect, Capacity, InRange, Block;
    RouteBlock(lbn, m.bsize / 8);
    AddrFollows(m, d, lbn, m.bsize / 8);
  }

  lemma AddrFollows(m: Image, d: Dinode, lbn: nat, n: nat)
    requires ValidDinode(d) && (n > 0 || lbn < DIRECT)
    ensures AddrIn(m, d, lbn, n) == Follow(m, d, Route(lbn, n))
  {
    hide Indirect;
  }

  /** Where a fragment begins in the image. */
  function FragAt(m: Image, frag: int): int {
    frag * m.fsize
  }

  /** Byte i of the block at fragment frag, counted from offset boff: zero in a hole, None
      where the block lies outside the image. */
  function BlockByte(m: Image, frag: int, boff: nat, i: nat): Option<Byte> {
    if frag <= 0 then Some(0)
    else if 0 <= FragAt(m, frag) + boff + i < |m.bytes| then Some(m.bytes[FragAt(m, frag) + boff + i])
    else None
  }

  /** Byte pos of the file: zero in a hole, None where its block lies outside the image. */
  function FileByte(m: Image, d: Dinode, pos: nat): Option<Byte>
    requires ValidImage(m) && ValidDinode(d)
  {
    var frag := BlockAddr(m, d, BlockNo(m, pos));
    BlockByte(m, frag, BlockOff(m, pos), 0)
  }

  predicate Readable(m: Image, d: Dinode, pos: nat)
    requires ValidImage(m) && ValidDinode(d)
  {
    FileByte(m, d, pos).Some?
  }

  /** data is what the file holds from off on. */
  ghost predicate Holds(m: Image, d: Dinode, off: nat, data: seq<Byte>)
    requires ValidImage(m) && ValidDinode(d)
  {
    forall i: nat :: i < |data| ==> FileByte(m, d, off + i) == Some(data[i])
  }

  lemma HoldsConcat(m: Image, d: Dinode, off: nat, x: seq<Byte>, y: seq<Byte>)
    requires ValidImage(m) && ValidDinode(d)
    ensures Holds(m, d, off, x + y) <==> Holds(m, d, off, x) && Holds(m, d, off + |x|, y)
  {
    hide FileByte;
    if Holds(m, d, off, x + y) {
      forall i: nat | i < |x| ensures FileByte(m, d, off + i) == Some(x[i]) {
        assert (x + y)[i] == x[i];
      }
      forall i: nat | i < |y| ensures FileByte(m, d, off + |x| + i) == Some(y[i]) {
        assert (x + y)[|x| + i] == y[i];
        assert FileByte(m, d, off + (|x| + i)) == Some((x + y)[|x| + i]);
      }
    }
    if Holds(m, d, off, x) && Holds(m, d, off + |x|, y) {
      forall i: nat | i < |x + y| ensures FileByte(m, d, off + i) == Some((x + y)[i]) {
        if i >= |x| {
          assert FileByte(m, d, off + |x| + (i - |x|)) == Some(y[i - |x|]);
        }
      }
    }
  }

  /** What the file holds somewhere is unique. */
  lemma HoldsUnique(m: Image, d: Dinode, off: nat, x: seq<Byte>, y: seq<Byte>)
    requires ValidImage(m) && ValidDinode(d) && Holds(m, d, off, x) && Holds(m, d, off, y) && |x| == |y|
    ensures x == y
  {
    hide FileByte;
    forall i: nat | i < |x| ensures x[i] == y[i] {
      assert FileByte(m, d, off + i) == Some(x[i]);
    }
  }

  lemma ByteInBlock(m: Image, d: Dinode, pos: nat, i: nat)
    requires ValidImage(m) && ValidDinode(d) && i < m.bsize - BlockOff(m, pos)
    ensures var frag := BlockAddr(m, d, BlockNo(m, pos));
            FileByte(m, d, pos + i) == BlockByte(m, frag, BlockOff(m, pos), i)
  {
    hide BlockAddr, Follow, Route;
    InUnit(pos, m.bsize, i);
  }

  lemma ChunkBytes(m: Image, d: Dinode, pos: nat, chunk: nat)
    requires ValidImage(m) && ValidDinode(d) && chunk <= m.bsize - BlockOff(m, pos)
    ensures forall i: nat :: i < chunk ==>
              FileByte(m, d, pos + i) == BlockByte(m, BlockAddr(m, d, BlockNo(m, pos)), BlockOff(m, pos), i)
  {
    hide FileByte, BlockAddr;
    forall i: nat | i < chunk
      ensures FileByte(m, d, pos + i) == BlockByte(m, BlockAddr(m, d, BlockNo(m, pos)), BlockOff(m, pos), i)
    {
      ByteInBlock(m, d, pos, i);
    }
  }

  lemma HoleHolds(m: Image, d: Dinode, pos: nat, chunk: nat)
    requires ValidImage(m) && ValidDinode(d) && chunk <= m.bsize - BlockOff(m, pos)
    requires BlockAddr(m, d, BlockNo(m, pos)) <= 0
    ensures Holds(m, d, pos, seq(chunk, i => 0))
  {
    hide BlockAddr, FileByte;
    ChunkBytes(m, d, pos, chunk);
    var b: seq<Byte> := seq(chunk, i => 0);
    forall i: nat | i < chunk ensures FileByte(m, d, pos + i) == Some(b[i]) {
      assert BlockByte(m, BlockAddr(m, d, BlockNo(m, pos)), BlockOff(m, pos), i) == Some(0);
    }
  }

  /** A chunk inside one block is read whole, or its last byte is not readable. */
  lemma ChunkHolds(m: Image, d: Dinode, pos: nat, chunk: nat, at: nat)
    requires ValidImage(m) && ValidDinode(d) && 0 < chunk <= m.bsize - BlockOff(m, pos)
    requires BlockAddr(m, d, BlockNo(m, pos)) > 0 && at == FragAt(m, BlockAddr(m, d, BlockNo(m, pos))) + BlockOff(m, pos)
    ensures at + chunk <= |m.bytes| ==> Holds(m, d, pos, m.bytes[at..at + chunk])
    ensures at + chunk > |m.bytes| ==> !Readable(m, d, pos + chunk - 1)
  {
    hide BlockAddr, FileByte, FragAt;
    var frag, boff := BlockAddr(m, d, BlockNo(m, pos)), BlockOff(m, pos);
    ChunkBytes(m, d, pos, chunk);
    forall i: nat | i < chunk
      ensures BlockByte(m, frag, boff, i) == if at + i < |m.bytes| then Some(m.bytes[at + i]) else None
    {
      ByteIs(m, frag, boff, i, at);
    }
    hide BlockByte;
    assert FileByte(m, d, pos + (chunk - 1)) == BlockByte(m, frag, boff, chunk - 1);
    if at + chunk <= |m.bytes| {
      var b := m.bytes[at..at + chunk];
      forall i: nat | i < chunk ensures FileByte(m, d, pos + i) == Some(b[i]) {
        assert FileByte(m, d, pos + i) == BlockByte(m, frag, boff, i);
      }
    } else {
      assert pos + chunk - 1 == pos + (chunk - 1);
    }
  }

  lemma FragPositive(m: Image, frag: int)
    requires frag > 0
    ensures FragAt(m, frag) >= 0
  {
  }

  lemma ByteIs(m: Image, frag: int, boff: nat, i: nat, at: nat)
    requires frag > 0 && at == FragAt(m, frag) + boff
    ensures BlockByte(m, frag, boff, i) == if at + i < |m.bytes| then Some(m.bytes[at + i]) else None
  {
  }

  /** Where the chunk that starts at pos ends when `left` bytes are wanted. */
  function ChunkEnd(m: Image, pos: nat, left: nat): nat
    requires ValidImage(m)
  {
    pos + Min(m.bsize - BlockOff(m, pos), left)
  }

  /** The chunk at pos has an unreadable byte. */
  ghost predicate Broken(m: Image, d: Dinode, pos: nat, left: nat)
    requires ValidImage(m) && ValidDinode(d)
  {
    left > 0 && !Readable(m, d, ChunkEnd(m, pos, left) - 1)
  }

  /** What a read of `want` bytes may return: all of them, those before the first broken
      chunk, or an error if that is the first chunk. */
  ghost predicate Outcome(m: Image, d: Dinode, off: nat, want: nat, r: Option<seq<Byte>>)
    requires ValidImage(m) && ValidDinode(d)
  {
    match r
    case Some(data) =>
      && |data| <= want && Holds(m, d, off, data) && (data == [] ==> want == 0)
      && (|data| < want ==> Broken(m, d, off + |data|, want - |data|))
    case None => Broken(m, d, off, want)
  }

  /** Reads [off, off+len) clamped to the file's size, a block at a time. */
  method ReadInode(m: Image, d: Dinode, off: int, len: int) returns (r: Option<seq<Byte>>)
    requires ValidImage(m) && ValidDinode(d)
    requires 0 <= off < d.size && len > 0 ==> Addressable(m, off + Min(len, d.size - off))
    ensures off < 0 || len < 0 ==> r == None
    ensures off >= 0 && len >= 0 && off >= d.size ==> r == Some([])
    ensures 0 <= off < d.size && len >= 0 ==> Outcome(m, d, off, Min(len, d.size - off), r)
  {
    hide Holds, Readable, BlockAddr;
    if off < 0 || len < 0 {
      return None;
    }
    if off >= d.size {
      return Some([]);
    }
    var want := Min(len, d.size - off);
    var dst: seq<Byte> := [];
    HoldsNothing(m, d, off);
    while |dst| < want
      invariant |dst| <= want && Holds(m, d, off, dst)
    {
      var chunk, data := ReadChunk(m, d, off + |dst|, want - |dst|);
      if data.None? {
        return if |dst| > 0 then Some(dst) else None;
      }
      HoldsConcat(m, d, off, dst, data.value);
      dst := dst + data.value;
    }
    return Some(dst);
  }

  /** No division by zero: a block beyond the direct ones is asked for only if a block holds
      a pointer. */
  lemma DirectOnly(m: Image, pos: nat, left: nat)
    requires ValidImage(m) && left > 0 && Addressable(m, pos + left)
    ensures m.bsize >= 8 || BlockNo(m, pos) < DIRECT
  {
    if m.bsize < 8 {
      DivLess(pos, DIRECT, m.bsize);
    }
  }

  /** One pass of the loop: the part of the read that lies in the block of `pos`. */
  method ReadChunk(m: Image, d: Dinode, pos: nat, left: nat) returns (chunk: nat, r: Option<seq<Byte>>)
    requires ValidImage(m) && ValidDinode(d) && left > 0 && Addressable(m, pos + left)
    ensures 0 < chunk <= left && pos + chunk == ChunkEnd(m, pos, left)
    ensures r.Some? ==> |r.value| == chunk && Holds(m, d, pos, r.value)
    ensures r.None? ==> Broken(m, d, pos, left)
  {
    hide Holds, Readable, BlockAddr, FragAt, Addressable, BlockNo, BlockOff;
    var boff := BlockOff(m, pos);
    chunk := Min(m.bsize - boff, left);
    DirectOnly(m, pos, left);
    var frag := BlockAddr(m, d, BlockNo(m, pos));
    if frag <= 0 {
      HoleHolds(m, d, pos, chunk);
      return chunk, Some(seq(chunk, i => 0));
    }
    FragPositive(m, frag);
    var at := FragAt(m, frag) + boff;
    ChunkHolds(m, d, pos, chunk, at);
    r := ReadAt(m, at, chunk);
  }

  lemma HoldsNothing(m: Image, d: Dinode, off: nat)
    requires ValidImage(m) && ValidDinode(d)
    ensures Holds(m, d, off, [])
  {
  }

  ghost predicate AllReadable(m: Image, d: Dinode, off: nat, end: nat)
    requires ValidImage(m) && ValidDinode(d)
  {
    forall i: nat :: off <= i < end ==> Readable(m, d, i)
  }

  /** Where every byte is readable, a read returns all it asked for. */
  lemma ReadableIsComplete(m: Image, d: Dinode, off: nat, want: nat, r: Option<seq<Byte>>)
    requires ValidImage(m) && ValidDinode(d) && Outcome(m, d, off, want, r) && AllReadable(m, d, off, off + want)
    ensures r.Some? && |r.value| == want && Holds(m, d, off, r.value)
  {
    hide Broken, AllReadable;
    var done := if r.None? then 0 else |r.value|;
    NotBroken(m, d, off, done, want);
  }

  lemma NotBroken(m: Image, d: Dinode, off: nat, done: nat, want: nat)
    requires ValidImage(m) && ValidDinode(d) && AllReadable(m, d, off, off + want) && done <= want
    ensures !Broken(m, d, off + done, want - done)
  {
    hide Readable;
    if done < want {
      var last := ChunkEnd(m, off + done, want - done) - 1;
      assert off <= last < off + want;
      assert Readable(m, d, last);
    }
  }

  /** Reads of adjacent ranges concatenate. */
  lemma ReadsConcatenate(m: Image, d: Dinode, off: nat, a: nat, b: nat,
                         x: Option<seq<Byte>>, y: Option<seq<Byte>>, z: Option<seq<Byte>>)
    requires ValidImage(m) && ValidDinode(d) && AllReadable(m, d, off, off + a + b)
    requires Outcome(m, d, off, a, x) && Outcome(m, d, off + a, b, y) && Outcome(m, d, off, a + b, z)
    ensures x.Some? && y.Some? && z == Some(x.value + y.value)
  {
    hide Readable, Holds, Outcome;
    ReadableIsComplete(m, d, off, a, x);
    ReadableIsComplete(m, d, off + a, b, y);
    ReadableIsComplete(m, d, off, a + b, z);
    HoldsConcat(m, d, off, x.value, y.value);
    HoldsUnique(m, d, off, x.value + y.value, z.value);
  }
}
