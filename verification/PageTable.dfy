/** The renderer's dirty-block counters: a two-level table over the 47-bit user address
    space that counts, per 64 KiB block and modulo 2^16, the live ranges touching it.
 */
module PageTable {
  import opened Basics

  const BLOCK: nat := 0x1_0000
  const CHUNKS: nat := 0x2_0000
  const PER_CHUNK: nat := 0x4000
  /** First address above user space, and the number of blocks below it. */
  const LIMIT: nat := 0x8000_0000_0000
  const BLOCKS: nat := 0x8000_0000
  const WRAP: nat := 0x1_0000

  datatype Range = Range(first: nat, end: nat)

  /** The range, as far as it lies in user space, shares a byte with block b. */
  predicate Touches(r: Range, b: nat) {
    r.first < Min(r.end, LIMIT) && r.first < (b + 1) * BLOCK && b * BLOCK < Min(r.end, LIMIT)
  }

  /** How many of the live ranges touch block b. */
  function Count(live: seq<Range>, b: nat): nat {
    if live == [] then 0
    else Count(live[..|live| - 1], b) + if Touches(live[|live| - 1], b) then 1 else 0
  }

  lemma {:induction false} CountConcat(x: seq<Range>, y: seq<Range>, b: nat)
    ensures Count(x + y, b) == Count(x, b) + Count(y, b)
  {
    if y == [] {
      assert x + y == x;
    } else {
      assert (x + y)[..|x + y| - 1] == x + y[..|y| - 1];
      CountConcat(x, y[..|y| - 1], b);
    }
  }

  lemma CountOne(r: Range, b: nat)
    ensures Count([r], b) == if Touches(r, b) then 1 else 0
  {
    assert [r][..0] == [];
  }

  function Without(live: seq<Range>, i: nat): seq<Range>
    requires i < |live|
  {
    live[..i] + live[i + 1..]
  }

  lemma CountWithout(live: seq<Range>, i: nat, b: nat)
    requires i < |live|
    ensures Count(live, b) == Count(Without(live, i), b) + if Touches(live[i], b) then 1 else 0
  {
    hide Count, Touches;
    assert live == live[..i] + ([live[i]] + live[i + 1..]);
    CountConcat(live[..i], [live[i]] + live[i + 1..], b);
    CountConcat([live[i]], live[i + 1..], b);
    CountConcat(live[..i], live[i + 1..], b);
    CountOne(live[i], b);
  }

  lemma {:induction false} CountPositive(live: seq<Range>, b: nat)
    ensures Count(live, b) > 0 <==> exists i :: 0 <= i < |live| && Touches(live[i], b)
  {
    if live != [] {
      var n := |live| - 1;
      CountPositive(live[..n], b);
      if Count(live[..n], b) > 0 {
        var i :| 0 <= i < n && Touches(live[..n][i], b);
        assert Touches(live[i], b);
      }
      if i :| 0 <= i < |live| && Touches(live[i], b) {
        assert i < n ==> Touches(live[..n][i], b);
      }
    }
  }

  /** A range touches exactly the blocks from its first byte's to its last byte's. */
  lemma TouchedBlocks(r: Range, b: nat)
    ensures Touches(r, b) <==>
            r.first < Min(r.end, LIMIT) && r.first / BLOCK <= b <= (Min(r.end, LIMIT) - 1) / BLOCK
  {
  }

  /** Two ranges that overlap in user space share a block. */
  lemma OverlapSharesBlock(r: Range, q: Range, a: nat)
    requires r.first <= a < r.end && q.first <= a < q.end && a < LIMIT
    ensures Touches(r, a / BLOCK) && Touches(q, a / BLOCK)
  {
  }

  type Counters = map<nat, seq<int>>

  /** The counter of block b: zero where no chunk was ever created. */
  function Counter(chunks: Counters, b: nat): int {
    if b / PER_CHUNK in chunks && |chunks[b / PER_CHUNK]| == PER_CHUNK
    then chunks[b / PER_CHUNK][b % PER_CHUNK] else 0
  }

  ghost predicate Shaped(chunks: Counters) {
    forall k :: k in chunks ==> k < CHUNKS && |chunks[k]| == PER_CHUNK
  }

  /** chunks counts the live ranges, block by block. */
  ghost predicate Counted(chunks: Counters, live: seq<Range>) {
    forall b: nat :: b < BLOCKS ==> Counter(chunks, b) == Count(live, b) % WRAP
  }

  /** The counters after a pass over blocks [lo, hi) that added d. */
  ghost predicate Added(before: Counters, after: Counters, lo: nat, hi: nat, d: int) {
    forall b: nat :: b < BLOCKS ==>
      Counter(after, b) == if lo <= b < hi then (Counter(before, b) + d) % WRAP else Counter(before, b)
  }

  lemma CounterUpdate(chunks: Counters, k: nat, j: nat, v: int, b: nat)
    requires k in chunks && |chunks[k]| == PER_CHUNK && j < PER_CHUNK
    ensures Counter(chunks[k := chunks[k][j := v]], b) ==
            if b == k * PER_CHUNK + j then v else Counter(chunks, b)
  {
  }

  lemma AddedSame(before: Counters, mid: Counters, after: Counters, lo: nat, hi: nat, d: int)
    requires Added(before, mid, lo, hi, d)
    requires forall x: nat :: Counter(after, x) == Counter(mid, x)
    ensures Added(before, after, lo, hi, d)
  {
    hide Counter;
  }

  lemma AddedSnoc(before: Counters, mid: Counters, after: Counters, lo: nat, b: nat, d: int)
    requires Added(before, mid, lo, b, d) && lo <= b
    requires forall x: nat :: x < BLOCKS ==>
               Counter(after, x) == if x == b then (Counter(mid, x) + d) % WRAP else Counter(mid, x)
    ensures Added(before, after, lo, b + 1, d)
  {
    hide Counter;
  }

  class GuestPageTable {
    var chunks: Counters
    /** The ranges that were added and not taken back. */
    ghost var live: seq<Range>
    /** Some chunk could not be allocated, so some counter was left behind. */
    ghost var lost: bool

    ghost predicate Valid()
      reads this
    {
      Shaped(chunks) && (lost || Counted(chunks, live))
    }

    constructor ()
      ensures Valid() && live == [] && !lost
    {
      chunks, live, lost := map[], [], false;
    }

    /** The chunk of a block, created on first use: false if that fails, which it does not
        as long as there is memory. */
    method ChunkAt(block: nat, memory: bool) returns (ok: bool)
      requires Shaped(chunks) && block < BLOCKS
      modifies this`chunks
      ensures Shaped(chunks) && chunks.Keys <= old(chunks.Keys) + {block / PER_CHUNK}
      ensures forall b: nat :: Counter(chunks, b) == old(Counter(chunks, b))
      ensures (ok <==> block / PER_CHUNK in chunks) && (memory ==> ok)
    {
      var index := block / PER_CHUNK;
      if index in chunks {
        return true;
      }
      if !memory {
        return false;
      }
      chunks := chunks[index := seq(PER_CHUNK, i => 0)];
      return true;
    }

    method Bump(block: nat, d: int)
      requires Shaped(chunks) && block < BLOCKS && block / PER_CHUNK in chunks
      modifies this`chunks
      ensures Shaped(chunks)
      ensures forall b: nat :: Counter(chunks, b) ==
                if b == block then (old(Counter(chunks, b)) + d) % WRAP else old(Counter(chunks, b))
    {
      hide Counter;
      var k, j := block / PER_CHUNK, block % PER_CHUNK;
      var v := (chunks[k][j] + d) % WRAP;
      forall b: nat
        ensures Counter(chunks[k := chunks[k][j := v]], b) ==
                if b == block then (Counter(chunks, b) + d) % WRAP else Counter(chunks, b)
      {
        CounterUpdate(chunks, k, j, v, b);
        CounterIs(chunks, block);
      }
      chunks := chunks[k := chunks[k][j := v]];
    }

    /** Adds d to the counter of every touched block, or of those before the first whose
        chunk cannot be had. */
    method AddCsDirty(first: nat, end: nat, d: int, memory: bool) returns (complete: bool)
      requires Shaped(chunks)
      modifies this`chunks
      ensures Shaped(chunks)
      ensures complete ==> forall b: nat :: b < BLOCKS ==>
                Counter(chunks, b) == if Touches(Range(first, end), b) then (old(Counter(chunks, b)) + d) % WRAP
                                      else old(Counter(chunks, b))
      ensures memory ==> complete
      ensures !complete ==> exists stop: nat :: Touches(Range(first, end), stop) && stop / PER_CHUNK !in chunks &&
                                                Added(old(chunks), chunks, first / BLOCK, stop, d)
    {
      hide Counter, Touches;
      var top := Min(end, LIMIT);
      forall b: nat ensures Touches(Range(first, end), b) <==> first < top && first / BLOCK <= b <= (top - 1) / BLOCK {
        TouchedBlocks(Range(first, end), b);
      }
      if first >= top {
        return true;
      }
      var block := first / BLOCK;
      while block <= (top - 1) / BLOCK
        invariant first / BLOCK <= block <= (top - 1) / BLOCK + 1
        invariant Shaped(chunks) && Added(old(chunks), chunks, first / BLOCK, block, d)
      {
        ghost var mid := chunks;
        var ok := ChunkAt(block, memory);
        if !ok {
          AddedSame(old(chunks), mid, chunks, first / BLOCK, block, d);
          return false;
        }
        Bump(block, d);
        AddedSnoc(old(chunks), mid, chunks, first / BLOCK, block, d);
        block := block + 1;
      }
      return true;
    }

    /** A compute range becomes dirty. */
    method Mark(first: nat, end: nat, memory: bool)
      requires Valid()
      modifies this
      ensures Valid() && live == old(live) + [Range(first, end)] && (old(lost) ==> lost)
      ensures memory ==> lost == old(lost)
    {
      hide Counter, Touches, Count;
      var complete := AddCsDirty(first, end, 1, memory);
      live := live + [Range(first, end)];
      lost := lost || !complete;
      forall b: nat ensures Count(live, b) == Count(old(live), b) + if Touches(Range(first, end), b) then 1 else 0 {
        CountConcat(old(live), [Range(first, end)], b);
        CountOne(Range(first, end), b);
      }
    }

    /** A dirty range is taken back with the bounds it was added with. */
    method Unmark(ghost i: nat, first: nat, end: nat, memory: bool)
      requires Valid() && i < |live| && live[i] == Range(first, end)
      modifies this
      ensures Valid() && live == Without(old(live), i) && (old(lost) ==> lost)
      ensures memory ==> lost == old(lost)
    {
      hide Counter, Touches, Count;
      var complete := AddCsDirty(first, end, -1, memory);
      live := Without(live, i);
      lost := lost || !complete;
      forall b: nat ensures Count(old(live), b) == Count(live, b) + if Touches(Range(first, end), b) then 1 else 0 {
        CountWithout(old(live), i, b);
      }
    }

    /** No touched block has a counter other than zero; false above user space. */
    method CsClear(first: nat, end: nat) returns (clear: bool)
      requires Shaped(chunks)
      ensures first >= end ==> clear
      ensures first < end && end > LIMIT ==> !clear
      ensures first < end <= LIMIT ==> (clear <==> AllZero(chunks, first, end))
    {
      if first >= end {
        return true;
      }
      if (end - 1) / 0x4000_0000 >= CHUNKS {
        return false;
      }
      var last := (end - 1) / BLOCK;
      var block := first / BLOCK;
      while block <= last
        invariant first / BLOCK <= block
        invariant forall b: nat :: first / BLOCK <= b < block && b <= last ==> Counter(chunks, b) == 0
      {
        if block / PER_CHUNK !in chunks {
          var next := (block / PER_CHUNK + 1) * PER_CHUNK;
          forall b: nat | block <= b < next ensures Counter(chunks, b) == 0 {
            SameChunk(block, b);
          }
          block := next;
        } else {
          if chunks[block / PER_CHUNK][block % PER_CHUNK] != 0 {
            assert Counter(chunks, block) != 0;
            return false;
          }
          block := block + 1;
        }
      }
      return true;
    }

    /** The answer in terms of the live ranges. A user-space range is called clear exactly if
        the number of ranges on each of its blocks is a multiple of 2^16. That is right, so
        that no live range touches one of its blocks and none overlaps it, exactly if no
        block of it has 2^16 ranges or more. */
    method IsClear(first: nat, end: nat) returns (clear: bool)
      requires Valid()
      ensures first >= end ==> clear
      ensures first < end && end > LIMIT ==> !clear
      ensures first < end <= LIMIT ==> (clear <==> AllZero(chunks, first, end))
      ensures first < end <= LIMIT && !lost ==> (clear <==> Divisible(live, first, end))
      ensures first < end <= LIMIT && !lost && clear ==> (Untouched(live, first, end) <==> Sparse(live, first, end))
      ensures first < end <= LIMIT && !lost && clear && Sparse(live, first, end) ==>
                forall i :: 0 <= i < |live| ==> !Overlap(live[i], Range(first, end))
      ensures first < end <= LIMIT && !lost && Untouched(live, first, end) ==> clear
    {
      hide Counter, Touches, Count, Sparse, Untouched, Divisible, Counted, AllZero;
      clear := CsClear(first, end);
      if first < end <= LIMIT && !lost {
        ZeroIsDivisible(chunks, live, first, end);
        UntouchedIsSparse(live, first, end);
        if Untouched(live, first, end) {
          UntouchedApart(live, first, end);
        }
      }
    }
  }

  /** Fewer than 2^16 ranges touch any one block of [first, end). */
  ghost predicate Sparse(live: seq<Range>, first: nat, end: nat)
    requires first < end
  {
    forall b: nat :: InBlocks(b, first, end) ==> Count(live, b) < WRAP
  }

  ghost predicate Divisible(live: seq<Range>, first: nat, end: nat)
    requires first < end
  {
    forall b: nat :: InBlocks(b, first, end) ==> Count(live, b) % WRAP == 0
  }

  predicate InBlocks(b: nat, first: nat, end: nat)
    requires first < end
  {
    first / BLOCK <= b <= (end - 1) / BLOCK
  }

  ghost predicate Untouched(live: seq<Range>, first: nat, end: nat)
    requires first < end
  {
    forall i: nat, b: nat :: i < |live| && InBlocks(b, first, end) ==> !Touches(live[i], b)
  }

  predicate Overlap(r: Range, q: Range) {
    r.first < r.end && q.first < q.end && r.first < q.end && q.first < r.end
  }

  ghost predicate AllZero(chunks: Counters, first: nat, end: nat)
    requires first < end
  {
    forall b: nat :: InBlocks(b, first, end) ==> Counter(chunks, b) == 0
  }

  lemma CounterIs(chunks: Counters, b: nat)
    requires Shaped(chunks) && b / PER_CHUNK in chunks
    ensures Counter(chunks, b) == chunks[b / PER_CHUNK][b % PER_CHUNK]
  {
  }

  lemma SameChunk(block: nat, b: nat)
    requires block <= b < (block / PER_CHUNK + 1) * PER_CHUNK
    ensures b / PER_CHUNK == block / PER_CHUNK
  {
  }

  lemma BlocksBelow(b: nat, first: nat, end: nat)
    requires first < end <= LIMIT && InBlocks(b, first, end)
    ensures b < BLOCKS
  {
  }

  lemma ZeroIsDivisible(chunks: Counters, live: seq<Range>, first: nat, end: nat)
    requires Counted(chunks, live) && first < end <= LIMIT
    ensures AllZero(chunks, first, end) <==> Divisible(live, first, end)
  {
    hide Counter, Count, InBlocks;
    forall b: nat | InBlocks(b, first, end) ensures Counter(chunks, b) == Count(live, b) % WRAP {
      BlocksBelow(b, first, end);
    }
  }

  /** No range touches the blocks iff all counts are multiples of 2^16 and below it. */
  lemma UntouchedIsSparse(live: seq<Range>, first: nat, end: nat)
    requires first < end
    ensures Untouched(live, first, end) <==> Divisible(live, first, end) && Sparse(live, first, end)
  {
    hide Touches, Count, InBlocks;
    forall b: nat | InBlocks(b, first, end)
      ensures (forall i: nat :: i < |live| ==> !Touches(live[i], b)) <==>
              Count(live, b) % WRAP == 0 && Count(live, b) < WRAP
    {
      CountPositive(live, b);
      SmallMultiple(Count(live, b));
    }
  }

  lemma SmallMultiple(n: nat)
    ensures n == 0 <==> n % WRAP == 0 && n < WRAP
  {
  }

  lemma BlockOf(a: nat, first: nat, end: nat)
    requires first <= a < end
    ensures InBlocks(a / BLOCK, first, end)
  {
  }

  lemma UntouchedApart(live: seq<Range>, first: nat, end: nat)
    requires first < end <= LIMIT && Untouched(live, first, end)
    ensures forall i :: 0 <= i < |live| ==> !Overlap(live[i], Range(first, end))
  {
    hide Touches;
    forall i | 0 <= i < |live| ensures !Overlap(live[i], Range(first, end)) {
      if Overlap(live[i], Range(first, end)) {
        var a := if first < live[i].first then live[i].first else first;
        OverlapSharesBlock(live[i], Range(first, end), a);
        BlockOf(a, first, end);
      }
    }
  }

  function Same(n: nat): seq<Range> {
    seq(n, i => Range(0, 1))
  }

  lemma {:induction false} CountSame(n: nat, b: nat)
    ensures Count(Same(n), b) == if b == 0 then n else 0
  {
    if n > 0 {
      assert Same(n)[..n - 1] == Same(n - 1);
      CountSame(n - 1, b);
    }
  }

  /** The bound is needed: a table in which one range was marked 2^16 times and never taken
      back calls that range clear. */
  method WrapHidesRanges() returns (table: GuestPageTable, clear: bool)
    ensures table.Valid() && !table.lost && table.live == Same(WRAP)
    ensures clear && AllZero(table.chunks, 0, 1) && Overlap(table.live[0], Range(0, 1))
  {
    hide Counter, Touches, Count;
    table := new GuestPageTable();
    for i := 0 to WRAP
      invariant fresh(table) && table.Valid() && !table.lost && table.live == Same(i)
    {
      table.Mark(0, 1, true);
      assert Same(i + 1) == Same(i) + [Range(0, 1)];
    }
    assert Divisible(table.live, 0, 1) by {
      forall b: nat | InBlocks(b, 0, 1) ensures Count(table.live, b) % WRAP == 0 {
        CountSame(WRAP, b);
      }
    }
    clear := table.IsClear(0, 1);
  }
}
