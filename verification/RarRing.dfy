/** One streaming decode session of the RAR backend: a ring buffer that the decoder
    fills and one reader drains. The functions give the effect of one pass through the
    loops of Push and Consume under the session lock; the class does the same in place.
 */
module RarRing {
  import opened Basics
  import opened Modular

  datatype Channel = Channel(ring: seq<Byte>, produced: nat, consumed: nat, done: bool, ok: bool)

  /** Bytes held, never more than the ring; byte i of the stream sits at i mod size. */
  ghost predicate Carries(c: Channel, stream: seq<Byte>) {
    && |c.ring| > 0
    && c.consumed <= c.produced <= c.consumed + |c.ring|
    && c.produced <= |stream|
    && forall i :: c.consumed <= i < c.produced ==> RingByte(c.ring, i) == stream[i]
  }

  function RingByte(ring: seq<Byte>, i: nat): Byte
    requires |ring| > 0
  {
    ring[i % |ring|]
  }

  predicate Full(c: Channel) {
    c.produced - c.consumed >= |c.ring|
  }

  /** What one pass of Push can copy: bounded by the data, the space and the wrap. */
  function PushCount(c: Channel, count: nat): (n: nat)
    requires |c.ring| > 0 && c.consumed <= c.produced && !Full(c)
    ensures n <= count && (count > 0 ==> n > 0)
    ensures c.produced % |c.ring| + n <= |c.ring| && c.produced + n <= c.consumed + |c.ring|
  {
    Min(count, Min(|c.ring| - (c.produced - c.consumed), |c.ring| - c.produced % |c.ring|))
  }

  function Splice(ring: seq<Byte>, at: nat, data: seq<Byte>): seq<Byte>
    requires at + |data| <= |ring|
  {
    ring[..at] + data + ring[at + |data|..]
  }

  function Pushed(c: Channel, data: seq<Byte>): Channel
    requires |c.ring| > 0 && c.consumed <= c.produced && !Full(c)
  {
    var n := PushCount(c, |data|);
    c.(ring := Splice(c.ring, c.produced % |c.ring|, data[..n]), produced := c.produced + n)
  }

  datatype Drained =
    | Blocked
    | Failed
    | Skipped(rest: Channel)
    | Copied(rest: Channel, bytes: seq<Byte>)

  /** One pass of Consume for the range [off, off+len). */
  function Drain(c: Channel, off: nat, len: nat): Drained
    requires |c.ring| > 0 && c.consumed <= c.produced && c.consumed < off + len
  {
    var avail := c.produced - c.consumed;
    if avail == 0 then (if c.done then Failed else Blocked)
    else if c.done && !c.ok then Failed
    else if c.consumed < off then Skipped(c.(consumed := c.consumed + Min(avail, off - c.consumed)))
    else
      var rpos := c.consumed % |c.ring|;
      var n := Min(avail, Min(off + len - c.consumed, |c.ring| - rpos));
      Copied(c.(consumed := c.consumed + n), c.ring[rpos..rpos + n])
  }

  /** A pass of Push appends the next stream bytes and disturbs none still held. */
  lemma PushKeeps(c: Channel, stream: seq<Byte>, data: seq<Byte>)
    requires Carries(c, stream) && !Full(c)
    requires c.produced + |data| <= |stream| && data == stream[c.produced..c.produced + |data|]
    ensures Carries(Pushed(c, data), stream)
    ensures |Pushed(c, data).ring| == |c.ring|
    ensures data != [] ==> Pushed(c, data).produced > c.produced
  {
    var n, size, d := PushCount(c, |data|), |c.ring|, Pushed(c, data);
    var wpos := c.produced % size;
    forall i | d.consumed <= i < d.produced ensures RingByte(d.ring, i) == stream[i] {
      if i >= c.produced {
        ModRun(c.produced, i - c.produced, size);
        assert d.ring[wpos + (i - c.produced)] == data[i - c.produced];
      } else {
        assert RingByte(c.ring, i) == stream[i];
        NotOverwritten(c, i, n);
        assert d.ring[i % size] == c.ring[i % size];
      }
    }
  }

  lemma NotOverwritten(c: Channel, i: nat, n: nat)
    requires |c.ring| > 0 && c.consumed <= i < c.produced && c.produced + n <= c.consumed + |c.ring|
    requires c.produced % |c.ring| + n <= |c.ring|
    ensures !(c.produced % |c.ring| <= i % |c.ring| < c.produced % |c.ring| + n)
  {
    var size := |c.ring|;
    var k := i % size - c.produced % size;
    if 0 <= k < n {
      ModRun(c.produced, k, size);
      ModDistinct(i, c.produced + k, size);
    }
  }

  /** A pass of Consume delivers exactly the stream bytes it steps over. */
  lemma DrainKeeps(c: Channel, stream: seq<Byte>, off: nat, len: nat)
    requires Carries(c, stream) && c.consumed < off + len
    ensures var r := Drain(c, off, len);
            match r
            case Blocked => c.consumed == c.produced && !c.done
            case Failed => c.done && (c.consumed == c.produced || !c.ok)
            case Skipped(d) => Carries(d, stream) && c.consumed < d.consumed <= off && |d.ring| == |c.ring|
            case Copied(d, bytes) =>
              && off <= c.consumed < d.consumed <= off + len && |d.ring| == |c.ring|
              && Carries(d, stream) && bytes == stream[c.consumed..d.consumed]
  {
    var r, size := Drain(c, off, len), |c.ring|;
    if r.Copied? {
      var rpos := c.consumed % size;
      forall k | 0 <= k < |r.bytes| ensures r.bytes[k] == stream[c.consumed + k] {
        ModRun(c.consumed, k, size);
        assert RingByte(c.ring, c.consumed + k) == stream[c.consumed + k];
      }
    }
  }

  /** The decoder and the reader are never both waiting on the ring. */
  lemma NeverBothBlocked(c: Channel, off: nat, len: nat)
    requires |c.ring| > 0 && c.consumed <= c.produced && c.consumed < off + len
    ensures !(Full(c) && Drain(c, off, len).Blocked?)
  {
  }

  /** 8 MiB of decode-ahead. */
  const RING_SIZE: nat := 8 * 1024 * 1024

  class RarSession {
    const ring: array<Byte>
    var produced: nat
    var consumed: nat
    var done: bool
    var ok: bool

    ghost predicate Valid()
      reads this
    {
      ring.Length > 0 && consumed <= produced <= consumed + ring.Length
    }

    ghost function View(): Channel
      reads this, ring
    {
      Channel(ring[..], produced, consumed, done, ok)
    }

    constructor ()
      ensures Valid() && fresh(ring) && View() == Channel(seq(RING_SIZE, i => 0), 0, 0, false, false)
    {
      ring := new Byte[RING_SIZE](i => 0);
      produced, consumed, done, ok := 0, 0, false, false;
      new;
      assert ring[..] == seq(RING_SIZE, i => 0);
    }

    /** One pass of Push once the decoder may produce; returns the bytes copied. */
    method Push(data: seq<Byte>) returns (n: nat)
      requires Valid() && produced - consumed < ring.Length
      modifies this`produced, ring
      ensures Valid() && View() == Pushed(old(View()), data)
      ensures n == PushCount(old(View()), |data|)
    {
      ghost var before := View();
      var space := ring.Length - (produced - consumed);
      var wpos := produced % ring.Length;
      n := Min(|data|, Min(space, ring.Length - wpos));
      var k := 0;
      while k < n
        invariant 0 <= k <= n
        invariant produced == old(produced)
        invariant ring[..] == Splice(before.ring, wpos, data[..k])
      {
        ring[wpos + k] := data[k];
        SpliceNext(before.ring, wpos, data, k);
        k := k + 1;
      }
      produced := produced + n;
    }

    /** The decoder is through: from now on no pass of a reader waits, and after a failed
        decode none delivers. */
    method Finish(success: bool)
      requires Valid()
      modifies this`done, this`ok
      ensures Valid() && View() == old(View()).(done := true, ok := success)
      ensures forall off: nat, len: nat :: consumed < off + len ==> Drain(View(), off, len) != Blocked
      ensures !success ==> forall off: nat, len: nat :: consumed < off + len ==> Drain(View(), off, len) == Failed
    {
      done := true;
      ok := success;
    }

    /** One pass of Consume for [off, off+len): the result says whether to wait, fail or
        go on, and copied bytes land in `out` at their distance from `off`. */
    method Consume(off: nat, out: array<Byte>, len: nat) returns (r: Drained)
      requires Valid() && consumed < off + len && out.Length >= len && out != ring
      modifies this`consumed, out
      ensures Valid() && r == Drain(old(View()), off, len)
      ensures View() == (match r case Skipped(d) => d case Copied(d, _) => d case _ => old(View()))
      ensures r.Copied? ==> old(consumed) >= off && old(consumed) - off + |r.bytes| <= len &&
                            out[..] == Splice(old(out[..]), old(consumed) - off, r.bytes)
      ensures !r.Copied? ==> out[..] == old(out[..])
    {
      hide Splice;
      ghost var before := View();
      var avail := produced - consumed;
      if avail == 0 {
        return if done then Failed else Blocked;
      }
      if done && !ok {
        return Failed;
      }
      if consumed < off {
        consumed := consumed + Min(avail, off - consumed);
        return Skipped(Channel(ring[..], produced, consumed, done, ok));
      }
      var rpos, at := consumed % ring.Length, consumed - off;
      var n := Min(avail, Min(off + len - consumed, ring.Length - rpos));
      var bytes := ring[rpos..rpos + n];
      CopyOut(bytes, out, at);
      assert ring[..] == before.ring;
      consumed := consumed + n;
      r := Copied(Channel(ring[..], produced, consumed, done, ok), bytes);
    }
  }

  /** memcpy into the caller's buffer. */
  method CopyOut(bytes: seq<Byte>, out: array<Byte>, at: nat)
    requires at + |bytes| <= out.Length
    modifies out
    ensures out[..] == Splice(old(out[..]), at, bytes)
  {
    var k := 0;
    assert out[..] == Splice(old(out[..]), at, bytes[..0]);
    while k < |bytes|
      invariant 0 <= k <= |bytes|
      invariant out[..] == Splice(old(out[..]), at, bytes[..k])
    {
      out[at + k] := bytes[k];
      SpliceNext(old(out[..]), at, bytes, k);
      k := k + 1;
    }
    assert bytes[..k] == bytes;
  }

  lemma SpliceNext(ring: seq<Byte>, at: nat, data: seq<Byte>, k: nat)
    requires k < |data| && at + k < |ring|
    ensures Splice(ring, at, data[..k])[at + k := data[k]] == Splice(ring, at, data[..k + 1])
  {
    var x, y := Splice(ring, at, data[..k]), Splice(ring, at, data[..k + 1]);
    assert data[..k + 1] == data[..k] + [data[k]];
  }
}
