/** Decoding one deflated ZIP member: the input is refilled 256 KiB at a time, the decompressor
    is called until enough bytes are out. The decompressor and the checksum are parameters:
    any prefix-monotone decoder and any checksum that can be continued.
 */
module ZipDecoding {
  import opened Basics

  /** `decode(x)` is the output that compressed bytes x determine, `ended(x)` whether they
      contain the end of the stream, `rejects(x)` whether they are found to be corrupt. */
  datatype Codec = Codec(decode: seq<Byte> -> seq<Byte>, ended: seq<Byte> -> bool, rejects: seq<Byte> -> bool)

  ghost predicate Lawful(c: Codec) {
    && c.decode([]) == []
    && (forall x, y :: c.decode(x) <= c.decode(x + y))
    && (forall x, y :: c.ended(x) ==> c.ended(x + y) && c.decode(x + y) == c.decode(x))
    && (forall x, y :: c.rejects(x) ==> !c.ended(x + y))
  }

  /** A checksum that is continued with the next bytes. */
  ghost predicate Continues(update: (nat, seq<Byte>) -> nat) {
    && (forall c :: update(c, []) == c)
    && (forall c, x, y :: update(update(c, x), y) == update(c, x + y))
  }

  /** One archive member as the central directory describes it. */
  datatype Entry = Entry(size: nat, packedSize: nat, dataOffset: nat, extra: nat, method_: nat, crc: nat)

  /** A decoder cursor. `fed` are the compressed bytes the decoder has consumed, `pending`
      those read from the archive but not consumed. */
  datatype Session = Session(
    open: bool, key: nat, filePos: nat, compLeft: nat, fed: seq<Byte>, pending: seq<Byte>,
    outPos: nat, crc: nat, ended: bool, stamp: nat)

  const CLOSED := Session(false, 0, 0, 0, [], [], 0, 0, false, 0)
  const INPUT_SIZE: nat := 256 * 1024
  /** The most output asked of the decompressor at once. */
  const CALL_SIZE: nat := 0x4000_0000
  const STORED: nat := 0
  const LOCAL_SIGNATURE: nat := 0x04034b50

  function Pread(file: seq<Byte>, off: nat, len: nat): Option<seq<Byte>> {
    if off + len <= |file| then Some(file[off..off + len]) else None
  }

  function Rd16(b: seq<Byte>, at: nat): nat
    requires at + 2 <= |b|
  {
    var lo: nat, hi: nat := b[at], b[at + 1];
    lo + 256 * hi
  }

  /** Where a member's data begins: after the local header and its own name and extra. */
  function LocalStart(file: seq<Byte>, extra: nat): Option<nat> {
    match Pread(file, extra, 30)
    case None => None
    case Some(h) =>
      if Rd16(h, 0) + 65536 * Rd16(h, 2) != LOCAL_SIGNATURE then None
      else Some(extra + 30 + Rd16(h, 26) + Rd16(h, 28))
  }

  function Start(file: seq<Byte>, e: Entry): Option<nat> {
    if e.dataOffset != 0 then Some(e.dataOffset) else LocalStart(file, e.extra)
  }

  /** The member's compressed bytes, as far as the archive reaches. */
  function Packed(file: seq<Byte>, start: nat, size: nat): seq<Byte> {
    if start <= |file| then file[start..Min(|file|, start + size)] else []
  }

  /** What a decode of the whole member from byte 0 produces. */
  function Plain(file: seq<Byte>, c: Codec, e: Entry): seq<Byte>
    requires Start(file, e).Some?
  {
    c.decode(Packed(file, Start(file, e).value, e.packedSize))
  }

  /** The input is read in buffers of 256 KiB, the last one shorter. */
  predicate AtFill(e: Entry, n: nat) {
    n <= e.packedSize && (n == e.packedSize || n % INPUT_SIZE == 0)
  }

  /** The cursor stands where a fresh decode of its member would stand after outPos bytes. */
  ghost predicate Faithful(file: seq<Byte>, c: Codec, update: (nat, seq<Byte>) -> nat, e: Entry, s: Session) {
    && Start(file, e).Some? && s.key == e.extra
    && var start := Start(file, e).value;
       && start <= s.filePos && s.filePos + s.compLeft == start + e.packedSize
       && (s.filePos > start ==> s.filePos <= |file|) && AtFill(e, s.filePos - start)
       && s.fed + s.pending == Packed(file, start, s.filePos - start)
       && s.outPos <= |c.decode(s.fed)|
       && s.crc == update(0, c.decode(s.fed)[..s.outPos])
       && (s.ended ==> c.ended(s.fed) && s.outPos == |c.decode(s.fed)|)
  }

  lemma PackedPrefix(file: seq<Byte>, start: nat, n: nat, size: nat)
    requires n <= size
    ensures Packed(file, start, n) <= Packed(file, start, size)
  {
  }

  /** The decoder's output so far is a prefix of the member's plain text. */
  lemma FaithfulPrefix(file: seq<Byte>, c: Codec, update: (nat, seq<Byte>) -> nat, e: Entry, s: Session)
    requires Lawful(c) && Faithful(file, c, update, e, s)
    ensures c.decode(s.fed) <= Plain(file, c, e)
    ensures s.ended ==> Plain(file, c, e) == c.decode(s.fed)
  {
    var start := Start(file, e).value;
    var whole := Packed(file, start, e.packedSize);
    PackedPrefix(file, start, s.filePos - start, e.packedSize);
    var rest := s.pending + whole[|s.fed + s.pending|..];
    assert whole == s.fed + rest;
  }

  datatype Rc = Progress | StreamEnd | Stuck

  /** A member that is there in full and decodes to at least its stated size. */
  ghost predicate Intact(file: seq<Byte>, c: Codec, e: Entry) {
    && Start(file, e).Some? && Start(file, e).value + e.packedSize <= |file| && e.size <= |Plain(file, c, e)|
    && forall x :: x <= Packed(file, Start(file, e).value, e.packedSize) ==> !c.rejects(x)
  }

  /** One call of the decompressor: it consumes input and writes the output bytes that
      follow. Unless the input is corrupt or the stream ends it goes on until the input is
      used up and all its output written, or the space is full and more output to come; it
      reports progress only if it made any. */
  method Inflate(c: Codec, fed: seq<Byte>, pending: seq<Byte>, emitted: nat, space: nat)
    returns (rc: Rc, used: nat, out: seq<Byte>)
    requires Lawful(c) && emitted <= |c.decode(fed)|
    ensures used <= |pending| && |out| <= space
    ensures emitted + |out| <= |c.decode(fed + pending[..used])|
    ensures out == c.decode(fed + pending[..used])[emitted..emitted + |out|]
    ensures rc == StreamEnd <==> c.ended(fed + pending[..used]) && emitted + |out| == |c.decode(fed + pending[..used])|
    ensures rc == Progress ==> used > 0 || |out| > 0
    ensures rc == Stuck ==> c.rejects(fed + pending[..used]) || (used == 0 && out == [])
    ensures rc == StreamEnd || c.rejects(fed + pending[..used]) || Emptied(c, fed, pending, emitted, used, |out|) ||
            (|out| == space && emitted + |out| < |c.decode(fed + pending)|)
  {
    hide Lawful;
    var k: nat := *;
    used := Min(k, |pending|);
    var whole := c.decode(fed + pending);
    LawfulPrefix(c, fed, pending);
    LawfulPrefix(c, fed, pending[..used]);
    var now := c.decode(fed + pending[..used]);
    if !c.rejects(fed + pending[..used]) && (|now| - emitted < space || |whole| - emitted <= space) {
      used := |pending|;
      assert pending[..used] == pending;
      now := whole;
    }
    out := now[emitted..emitted + Min(space, |now| - emitted)];
    rc := if c.ended(fed + pending[..used]) && emitted + |out| == |now| then StreamEnd
          else if c.rejects(fed + pending[..used]) || (used == 0 && out == []) then Stuck else Progress;
  }

  /** All input is used and all its output written. */
  predicate Emptied(c: Codec, fed: seq<Byte>, pending: seq<Byte>, emitted: nat, used: nat, got: nat)
    requires used <= |pending|
  {
    used == |pending| && emitted + got == |c.decode(fed + pending[..used])|
  }

  /** A cursor whose decoder has found corruption belongs to a member that is not intact. */
  lemma RejectedNotIntact(file: seq<Byte>, c: Codec, update: (nat, seq<Byte>) -> nat, e: Entry, s: Session)
    requires Faithful(file, c, update, e, s) && c.rejects(s.fed)
    ensures !Intact(file, c, e)
  {
    var start := Start(file, e).value;
    PackedPrefix(file, start, s.filePos - start, e.packedSize);
    assert s.fed <= s.fed + s.pending;
  }

  /** So does one whose next input is not in the archive. */
  lemma ShortNotIntact(file: seq<Byte>, c: Codec, update: (nat, seq<Byte>) -> nat, e: Entry, s: Session, n: nat)
    requires Faithful(file, c, update, e, s) && n <= s.compLeft && s.filePos + n > |file|
    ensures !Intact(file, c, e)
  {
    hide Plain, Packed;
  }

  /** A cursor that has used up its input and written all of its output has written all of
      the member. */
  lemma ExhaustedIsAll(file: seq<Byte>, c: Codec, update: (nat, seq<Byte>) -> nat, e: Entry, s: Session)
    requires Faithful(file, c, update, e, s) && s.pending == [] && s.compLeft == 0 && s.outPos == |c.decode(s.fed)|
    ensures s.outPos == |Plain(file, c, e)|
  {
    assert s.fed + [] == s.fed;
  }

  /** Nothing more can come out of the cursor, or its member is damaged. */
  lemma StoppedShort(file: seq<Byte>, c: Codec, update: (nat, seq<Byte>) -> nat, e: Entry, s: Session)
    requires Faithful(file, c, update, e, s)
    requires c.rejects(s.fed) || (s.pending == [] && s.compLeft == 0 && s.outPos == |c.decode(s.fed)|)
    ensures if c.rejects(s.fed) then !Intact(file, c, e) else s.outPos == |Plain(file, c, e)|
  {
    hide Faithful, Intact, Plain;
    if c.rejects(s.fed) {
      RejectedNotIntact(file, c, update, e, s);
    } else {
      ExhaustedIsAll(file, c, update, e, s);
    }
  }

  function Feed(s: Session, used: nat, got: nat, crc: nat): Session
    requires used <= |s.pending|
  {
    s.(fed := s.fed + s.pending[..used], pending := s.pending[used..], outPos := s.outPos + got, crc := crc)
  }

  lemma LawfulPrefix(c: Codec, x: seq<Byte>, y: seq<Byte>)
    requires Lawful(c)
    ensures c.decode(x) <= c.decode(x + y)
  {
  }

  lemma ContinuesAt(update: (nat, seq<Byte>) -> nat, x: seq<Byte>, y: seq<Byte>)
    requires Continues(update)
    ensures update(update(0, x), y) == update(0, x + y)
  {
  }

  lemma FeedFaithful(file: seq<Byte>, c: Codec, update: (nat, seq<Byte>) -> nat, e: Entry, s: Session, used: nat, out: seq<Byte>)
    requires Lawful(c) && Continues(update) && Faithful(file, c, update, e, s) && !s.ended && used <= |s.pending|
    requires s.outPos + |out| <= |c.decode(s.fed + s.pending[..used])|
    requires out == c.decode(s.fed + s.pending[..used])[s.outPos..s.outPos + |out|]
    ensures Faithful(file, c, update, e, Feed(s, used, |out|, update(s.crc, out)))
  {
    hide Lawful, Continues, Packed, Start;
    var before, now := c.decode(s.fed), c.decode(s.fed + s.pending[..used]);
    LawfulPrefix(c, s.fed, s.pending[..used]);
    assert now[..s.outPos] == before[..s.outPos];
    assert now[..s.outPos + |out|] == now[..s.outPos] + out;
    ContinuesAt(update, now[..s.outPos], out);
    assert (s.fed + s.pending[..used]) + s.pending[used..] == s.fed + s.pending;
  }

  function Filled(s: Session, data: seq<Byte>): Session
    requires |data| <= s.compLeft
  {
    s.(pending := data, filePos := s.filePos + |data|, compLeft := s.compLeft - |data|)
  }

  lemma FillFaithful(file: seq<Byte>, c: Codec, update: (nat, seq<Byte>) -> nat, e: Entry, s: Session, n: nat)
    requires Faithful(file, c, update, e, s) && s.pending == [] && s.compLeft > 0
    requires n == Min(INPUT_SIZE, s.compLeft) && s.filePos + n <= |file|
    ensures Faithful(file, c, update, e, Filled(s, file[s.filePos..s.filePos + n]))
  {
    hide Packed, AtFill, Start;
    var start := Start(file, e).value;
    PackedGrows(file, start, s.filePos - start, n);
    AtNextFill(e, s.filePos - start);
    assert s.fed + [] == s.fed;
  }

  lemma PackedGrows(file: seq<Byte>, start: nat, m: nat, n: nat)
    requires start + m + n <= |file|
    ensures Packed(file, start, m) + file[start + m..start + m + n] == Packed(file, start, m + n)
  {
  }

  lemma AtNextFill(e: Entry, n: nat)
    requires AtFill(e, n)
    ensures AtFill(e, n + Min(INPUT_SIZE, e.packedSize - n))
  {
  }

  // ---- how much input is read --------------------------------------------------------

  /** After a call the stream has ended, more output is waiting for space, or the input is
      used up and all its output written. */
  predicate Drained(c: Codec, s: Session) {
    s.ended || c.rejects(s.fed) || s.outPos < |c.decode(s.fed + s.pending)| || (s.pending == [] && s.outPos == |c.decode(s.fed)|)
  }

  /** Where no input is left, all its output is written. */
  predicate Level(c: Codec, s: Session) {
    s.pending == [] ==> s.outPos == |c.decode(s.fed)|
  }

  /** How many packed bytes, read a buffer at a time from n on, give the stated size. */
  function Needed(file: seq<Byte>, c: Codec, e: Entry, start: nat, n: nat): (r: nat)
    ensures n <= e.packedSize ==> n <= r <= e.packedSize
    decreases if n < e.packedSize then e.packedSize - n else 0
  {
    if n >= e.packedSize || |c.decode(Packed(file, start, n))| >= e.size then n
    else Needed(file, c, e, start, Min(e.packedSize, n + INPUT_SIZE))
  }

  /** The cursor has not read more than that. */
  ghost predicate OnPace(file: seq<Byte>, c: Codec, e: Entry, s: Session) {
    && Start(file, e).Some? && Start(file, e).value <= s.filePos
    && var start := Start(file, e).value;
       Needed(file, c, e, start, s.filePos - start) == Needed(file, c, e, start, 0)
  }

  /** One call asks a cursor that is on pace for no more than is left of an intact member. */
  ghost predicate Paced(file: seq<Byte>, c: Codec, e: Entry, s: Session, want: nat) {
    Intact(file, c, e) && Level(c, s) && OnPace(file, c, e, s) && want <= CALL_SIZE && s.outPos + want <= e.size
  }

  lemma EndedDrained(c: Codec, s: Session)
    ensures s.ended ==> Drained(c, s)
  {
  }

  lemma FeedWhole(fed: seq<Byte>, pending: seq<Byte>, used: nat)
    requires used <= |pending|
    ensures (fed + pending[..used]) + pending[used..] == fed + pending
    ensures used == |pending| ==> pending[used..] == []
  {
  }

  lemma SamePlace(file: seq<Byte>, c: Codec, e: Entry, s: Session, n: Session)
    requires n.filePos == s.filePos
    ensures OnPace(file, c, e, n) <==> OnPace(file, c, e, s)
  {
  }

  /** A refill that comes when all output is written and some is missing keeps the pace. */
  lemma FillOnPace(file: seq<Byte>, c: Codec, update: (nat, seq<Byte>) -> nat, e: Entry, s: Session)
    requires Faithful(file, c, update, e, s) && OnPace(file, c, e, s)
    requires s.pending == [] && s.compLeft > 0 && s.outPos == |c.decode(s.fed)| < e.size
    requires s.filePos + Min(INPUT_SIZE, s.compLeft) <= |file|
    ensures OnPace(file, c, e, Filled(s, file[s.filePos..s.filePos + Min(INPUT_SIZE, s.compLeft)]))
  {
    var start := Start(file, e).value;
    var n := s.filePos - start;
    assert s.fed == s.fed + s.pending == Packed(file, start, n);
    assert Min(e.packedSize, n + INPUT_SIZE) == n + Min(INPUT_SIZE, s.compLeft);
  }

  /** Where enough has come out at a refill, not less than needed has been read. */
  lemma {:induction false} NeededBelow(file: seq<Byte>, c: Codec, e: Entry, start: nat, m: nat, n: nat)
    requires AtFill(e, m) && AtFill(e, n) && m <= n && |c.decode(Packed(file, start, n))| >= e.size
    ensures Needed(file, c, e, start, m) <= n
    decreases n - m
  {
    if m < n && |c.decode(Packed(file, start, m))| < e.size {
      NextFill(e, m, n);
      NeededBelow(file, c, e, start, Min(e.packedSize, m + INPUT_SIZE), n);
    }
  }

  lemma NextFill(e: Entry, m: nat, n: nat)
    requires AtFill(e, m) && AtFill(e, n) && m < n
    ensures AtFill(e, Min(e.packedSize, m + INPUT_SIZE)) && Min(e.packedSize, m + INPUT_SIZE) <= n
  {
  }

  // ---- the end of a member ---------------------------------------------------------------

  /** The one buffer of input the probe at the end of a member looks at. */
  function Seen(file: seq<Byte>, s: Session): seq<Byte> {
    if s.pending == [] && s.compLeft > 0 && Pread(file, s.filePos, Min(INPUT_SIZE, s.compLeft)).Some?
    then Pread(file, s.filePos, Min(INPUT_SIZE, s.compLeft)).value
    else s.pending
  }

  /** The stream has ended, or the rest of it lies in that buffer and holds at most one byte. */
  predicate EndSeen(file: seq<Byte>, c: Codec, s: Session) {
    s.ended || (c.ended(s.fed + Seen(file, s)) && |c.decode(s.fed + Seen(file, s))| <= s.outPos + 1)
  }

  /** The decompressor reports the end of the stream, given room for one byte, if and only
      if the rest of the stream is in its input and at most one byte follows. */
  lemma ProbeExact(c: Codec, fed: seq<Byte>, pending: seq<Byte>, emitted: nat, used: nat, got: nat, end: bool)
    requires Lawful(c) && used <= |pending| && got <= 1 && emitted + got <= |c.decode(fed + pending[..used])|
    requires end <==> c.ended(fed + pending[..used]) && emitted + got == |c.decode(fed + pending[..used])|
    requires end || c.rejects(fed + pending[..used]) || Emptied(c, fed, pending, emitted, used, got) ||
             (got == 1 && emitted + got < |c.decode(fed + pending)|)
    ensures end <==> c.ended(fed + pending) && |c.decode(fed + pending)| <= emitted + 1
  {
    FeedWhole(fed, pending, used);
    var x, y := fed + pending[..used], pending[used..];
    assert c.decode(x) <= c.decode(x + y);
    assert c.rejects(x) ==> !c.ended(x + y);
    assert c.ended(x) ==> c.ended(x + y) && c.decode(x + y) == c.decode(x);
    if Emptied(c, fed, pending, emitted, used, got) {
      assert pending[..used] == pending;
    }
  }

  /** The end of the stream lies at most one buffer after the buffer in which the last byte
      of the member is decoded. */
  predicate EndsSoon(file: seq<Byte>, c: Codec, e: Entry) {
    && Start(file, e).Some?
    && var start := Start(file, e).value;
       c.ended(Packed(file, start, Min(e.packedSize, Needed(file, c, e, start, 0) + INPUT_SIZE)))
  }

  lemma EndedLater(file: seq<Byte>, c: Codec, start: nat, m: nat, n: nat)
    requires Lawful(c) && m <= n && c.ended(Packed(file, start, m))
    ensures c.ended(Packed(file, start, n))
  {
    PackedPrefix(file, start, m, n);
    var x, y := Packed(file, start, m), Packed(file, start, n);
    assert y == x + y[|x|..];
  }

  /** What the probe looks at when the input is used up: everything up to the next refill. */
  lemma SeenIs(file: seq<Byte>, c: Codec, update: (nat, seq<Byte>) -> nat, e: Entry, s: Session)
    requires Faithful(file, c, update, e, s) && Intact(file, c, e) && s.pending == []
    ensures var start := Start(file, e).value;
            s.fed + Seen(file, s) == Packed(file, start, Min(e.packedSize, s.filePos - start + INPUT_SIZE))
  {
    hide Intact;
    IntactFacts(file, c, e);
    var start := Start(file, e).value;
    if s.compLeft > 0 {
      FillFaithful(file, c, update, e, s, Min(INPUT_SIZE, s.compLeft));
    }
    assert s.fed + [] == s.fed;
  }

  /** A cursor at the end of a member of the stated size has used up its input. */
  lemma AtEndEmpty(file: seq<Byte>, c: Codec, update: (nat, seq<Byte>) -> nat, e: Entry, s: Session)
    requires Lawful(c) && Faithful(file, c, update, e, s) && Intact(file, c, e) && |Plain(file, c, e)| == e.size
    requires Drained(c, s) && s.outPos == e.size && !s.ended
    ensures s.pending == [] && s.outPos == |c.decode(s.fed)|
  {
    var start := Start(file, e).value;
    var n := s.filePos - start;
    if c.rejects(s.fed) {
      RejectedNotIntact(file, c, update, e, s);
    }
    PackedPrefix(file, start, n, e.packedSize);
    var x, whole := s.fed + s.pending, Packed(file, start, e.packedSize);
    assert whole == x + whole[|x|..];
    assert c.decode(x) <= c.decode(x + whole[|x|..]);
  }

  /** At the end of an intact member the probe finds the end of a stream that ends soon, and
      no other if the cursor has read no more than needed. */
  lemma EndSeenExact(file: seq<Byte>, c: Codec, update: (nat, seq<Byte>) -> nat, e: Entry, s: Session)
    requires Lawful(c) && Faithful(file, c, update, e, s) && Intact(file, c, e) && |Plain(file, c, e)| == e.size
    requires Drained(c, s) && s.outPos == e.size
    ensures EndsSoon(file, c, e) ==> EndSeen(file, c, s)
    ensures EndSeen(file, c, s) && OnPace(file, c, e, s) ==> EndsSoon(file, c, e)
  {
    hide Lawful, Intact, Faithful, Drained, Packed, Plain, Start, Seen;
    AtEndFacts(file, c, update, e, s);
    var start := Start(file, e).value;
    var n := s.filePos - start;
    var need := Needed(file, c, e, start, 0);
    NeededBelow(file, c, e, start, 0, n);
    if s.ended {
      EndedPrefix(c, s.fed, s.pending);
      if OnPace(file, c, e, s) {
        EndedLater(file, c, start, n, Min(e.packedSize, need + INPUT_SIZE));
      }
    } else {
      AtEndEmpty(file, c, update, e, s);
      EndSeenNext(file, c, update, e, s, need);
    }
  }

  lemma EndSeenNext(file: seq<Byte>, c: Codec, update: (nat, seq<Byte>) -> nat, e: Entry, s: Session, need: nat)
    requires Lawful(c) && Faithful(file, c, update, e, s) && Intact(file, c, e) && |Plain(file, c, e)| == e.size
    requires s.pending == [] && s.outPos == e.size && !s.ended && Start(file, e).Some? && Start(file, e).value <= s.filePos
    requires need == Needed(file, c, e, Start(file, e).value, 0) <= s.filePos - Start(file, e).value
    ensures EndsSoon(file, c, e) ==> EndSeen(file, c, s)
    ensures EndSeen(file, c, s) && need == s.filePos - Start(file, e).value ==> EndsSoon(file, c, e)
  {
    hide Lawful, Intact, Faithful, Packed, Plain, Start, Seen;
    var start := Start(file, e).value;
    var m, n := Min(e.packedSize, need + INPUT_SIZE), Min(e.packedSize, s.filePos - start + INPUT_SIZE);
    SeenIs(file, c, update, e, s);
    if EndsSoon(file, c, e) {
      EndedLater(file, c, start, m, n);
      DecodeWithin(file, c, e, n);
    }
  }

  lemma AtEndFacts(file: seq<Byte>, c: Codec, update: (nat, seq<Byte>) -> nat, e: Entry, s: Session)
    requires Lawful(c) && Faithful(file, c, update, e, s) && s.outPos == e.size
    ensures Start(file, e).Some? && Start(file, e).value <= s.filePos
    ensures var start := Start(file, e).value;
            && AtFill(e, s.filePos - start) && AtFill(e, 0)
            && s.fed + s.pending == Packed(file, start, s.filePos - start)
            && |c.decode(Packed(file, start, s.filePos - start))| >= e.size
            && (s.ended ==> c.ended(s.fed))
            && Needed(file, c, e, start, s.filePos - start) == s.filePos - start
  {
    assert c.decode(s.fed) <= c.decode(s.fed + s.pending);
  }

  lemma EndedPrefix(c: Codec, x: seq<Byte>, y: seq<Byte>)
    requires Lawful(c)
    ensures c.ended(x) ==> c.ended(x + y)
  {
  }

  lemma DecodeWithin(file: seq<Byte>, c: Codec, e: Entry, n: nat)
    requires Lawful(c) && Start(file, e).Some? && n <= e.packedSize
    ensures |c.decode(Packed(file, Start(file, e).value, n))| <= |Plain(file, c, e)|
  {
    var start := Start(file, e).value;
    PackedPrefix(file, start, n, e.packedSize);
    var x, whole := Packed(file, start, n), Packed(file, start, e.packedSize);
    assert whole == x + whole[|x|..];
  }

  /** The decoding loop on one cursor: it refills the input, calls the decompressor and
      advances the checksum until `want` bytes are out, the stream ends or it gets stuck. */
  method Produce(file: seq<Byte>, c: Codec, update: (nat, seq<Byte>) -> nat, e: Entry, cursor: Session, want: nat)
    returns (s: Session, r: Option<seq<Byte>>)
    requires Lawful(c) && Continues(update) && Faithful(file, c, update, e, cursor) && cursor.open
    ensures Faithful(file, c, update, e, s) && s.open && s.key == cursor.key
    ensures r.Some? ==> |r.value| <= want && s.outPos == cursor.outPos + |r.value|
    ensures r.Some? ==> s.outPos <= |Plain(file, c, e)| && r.value == Plain(file, c, e)[cursor.outPos..s.outPos]
    ensures r.Some? && |r.value| < want ==> s.ended
    ensures Intact(file, c, e) && cursor.outPos + want <= |Plain(file, c, e)| ==> r.Some? && |r.value| == want
    ensures r.Some? && want > 0 ==> Drained(c, s)
    ensures r.Some? && Paced(file, c, e, cursor, want) ==> OnPace(file, c, e, s)
  {
    hide Faithful, Lawful, Continues, Running, Plain, Start, LocalStart, Packed, Intact, OnPace, Drained, Level;
    s := cursor;
    var dst: seq<Byte> := [];
    RunStart(file, c, update, e, s);
    ghost var paced := Paced(file, c, e, cursor, want);
    ghost var turned := false;
    EndedDrained(c, s);
    while |dst| < want && !s.ended
      invariant s.open && s.key == cursor.key && |dst| <= want
      invariant Running(file, c, update, e, s, cursor.outPos, dst)
      invariant s.ended || turned ==> Drained(c, s)
      invariant |dst| > 0 ==> turned
      invariant paced ==> OnPace(file, c, e, s) && (|dst| < want && !s.ended ==> Level(c, s))
      invariant paced ==> Intact(file, c, e) && want <= CALL_SIZE && cursor.outPos + want <= e.size
      decreases s.compLeft + |s.pending| + (want - |dst|), !s.ended
    {
      RunFaithful(file, c, update, e, s, cursor.outPos, dst);
      var verdict, out;
      s, verdict, out := Pass(file, c, update, e, s, cursor.outPos, dst, want);
      turned := true;
      dst := dst + out;
      RunFaithful(file, c, update, e, s, cursor.outPos, dst);
      if c.rejects(s.fed) {
        RejectedNotIntact(file, c, update, e, s);
      }
      if verdict == Stuck {
        return s, None;
      }
    }
    RunFaithful(file, c, update, e, s, cursor.outPos, dst);
    if s.ended {
      EndFacts(file, c, update, e, s);
    }
    return s, Some(dst);
  }

  /** Reads the next buffer when the input is used up. It fails only on a damaged member. */
  method Refill(file: seq<Byte>, c: Codec, update: (nat, seq<Byte>) -> nat, e: Entry, cursor: Session,
                start: nat, dst: seq<Byte>)
    returns (s: Session, ok: bool)
    requires Running(file, c, update, e, cursor, start, dst)
    ensures Running(file, c, update, e, s, start, dst) && s.outPos == cursor.outPos && s.fed == cursor.fed
    ensures s.open == cursor.open && s.key == cursor.key && s.ended == cursor.ended
    ensures s.compLeft + |s.pending| == cursor.compLeft + |cursor.pending|
    ensures ok && s.pending == [] ==> s.compLeft == 0
    ensures !ok ==> s == cursor && !Intact(file, c, e)
    ensures Level(c, cursor) && OnPace(file, c, e, cursor) && cursor.outPos < e.size ==> OnPace(file, c, e, s)
  {
    hide Faithful, Running, Plain, Start, LocalStart, Packed, Intact, OnPace;
    s := cursor;
    if s.pending == [] && s.compLeft > 0 {
      var n := Min(INPUT_SIZE, s.compLeft);
      var data := Pread(file, s.filePos, n);
      RunFaithful(file, c, update, e, s, start, dst);
      if data.None? {
        ShortNotIntact(file, c, update, e, s, n);
        return s, false;
      }
      RunFill(file, c, update, e, s, start, dst, n);
      if OnPace(file, c, e, s) && s.outPos == |c.decode(s.fed)| < e.size {
        FillOnPace(file, c, update, e, s);
      }
      s := Filled(s, data.value);
    }
    return s, true;
  }

  /** One turn of the loop. It gives up only on a damaged member or past its end. */
  method Pass(file: seq<Byte>, c: Codec, update: (nat, seq<Byte>) -> nat, e: Entry, cursor: Session,
              start: nat, dst: seq<Byte>, want: nat)
    returns (s: Session, verdict: Rc, out: seq<Byte>)
    requires Lawful(c) && Continues(update) && Running(file, c, update, e, cursor, start, dst)
    requires !cursor.ended && |dst| < want
    ensures s.open == cursor.open && s.key == cursor.key && |dst + out| <= want
    ensures Running(file, c, update, e, s, start, dst + out) && (s.ended <==> verdict == StreamEnd)
    ensures s.compLeft + |s.pending| + (want - |dst + out|) <= cursor.compLeft + |cursor.pending| + (want - |dst|)
    ensures verdict == Progress ==>
              s.compLeft + |s.pending| + (want - |dst + out|) < cursor.compLeft + |cursor.pending| + (want - |dst|)
    ensures verdict == Stuck ==> !Intact(file, c, e) || start + want > |Plain(file, c, e)|
    ensures verdict != Stuck ==> Drained(c, s)
    ensures verdict == Progress && |dst + out| < want <= CALL_SIZE ==> Level(c, s) || c.rejects(s.fed)
    ensures Level(c, cursor) && OnPace(file, c, e, cursor) && cursor.outPos < e.size ==> OnPace(file, c, e, s)
  {
    hide Faithful, Lawful, Continues, Running, Plain, Start, LocalStart, Packed, Intact, OnPace;
    var ok;
    s, ok := Refill(file, c, update, e, cursor, start, dst);
    if !ok {
      assert dst + [] == dst;
      return s, Stuck, [];
    }
    RunFaithful(file, c, update, e, s, start, dst);
    var rc, used;
    rc, used, out := Inflate(c, s.fed, s.pending, s.outPos, Min(want - |dst|, CALL_SIZE));
    RunStep(file, c, update, e, s, start, dst, used, out);
    ghost var filled := s;
    s := Feed(s, used, |out|, update(s.crc, out));
    SamePlace(file, c, e, filled, s);
    FeedWhole(filled.fed, filled.pending, used);
    if rc == StreamEnd {
      RunEnd(file, c, update, e, s, start, dst + out);
      SamePlace(file, c, e, s, s.(ended := true));
      s := s.(ended := true);
      return s, StreamEnd, out;
    }
    if rc != Progress || (out == [] && s.pending == [] && s.compLeft == 0) {
      RunFaithful(file, c, update, e, s, start, dst + out);
      StoppedShort(file, c, update, e, s);
      return s, Stuck, out;
    }
    return s, Progress, out;
  }

  lemma IntactFacts(file: seq<Byte>, c: Codec, e: Entry)
    ensures Intact(file, c, e) ==> Start(file, e).Some? && e.size <= |Plain(file, c, e)| &&
                                   Start(file, e).value + e.packedSize <= |file|
  {
  }

  lemma PreadSize(file: seq<Byte>, off: nat, len: nat)
    ensures Pread(file, off, len).Some? ==> |Pread(file, off, len).value| == len
  {
  }

  lemma EndFacts(file: seq<Byte>, c: Codec, update: (nat, seq<Byte>) -> nat, e: Entry, s: Session)
    requires Lawful(c) && Faithful(file, c, update, e, s)
    ensures Start(file, e).Some? && s.outPos <= |c.decode(s.fed)|
    ensures s.outPos <= |Plain(file, c, e)| && s.crc == update(0, Plain(file, c, e)[..s.outPos])
    ensures s.ended ==> |Plain(file, c, e)| == s.outPos
  {
    FaithfulPrefix(file, c, update, e, s);
    assert Plain(file, c, e)[..s.outPos] == c.decode(s.fed)[..s.outPos];
  }

  lemma EndLength(file: seq<Byte>, c: Codec, update: (nat, seq<Byte>) -> nat, e: Entry, s: Session)
    requires Lawful(c) && Faithful(file, c, update, e, s) && c.ended(s.fed) && s.outPos == |c.decode(s.fed)|
    ensures Start(file, e).Some? && |Plain(file, c, e)| == s.outPos
  {
    RunEndPlain(file, c, update, e, s);
  }

  lemma RunEndPlain(file: seq<Byte>, c: Codec, update: (nat, seq<Byte>) -> nat, e: Entry, s: Session)
    requires Lawful(c) && Faithful(file, c, update, e, s) && c.ended(s.fed) && s.outPos == |c.decode(s.fed)|
    ensures Plain(file, c, e) == c.decode(s.fed)
  {
    FaithfulPrefix(file, c, update, e, s.(ended := true));
  }

  /** InflateTo half-way: the cursor is faithful and `dst` is the plain text it passed. */
  ghost predicate Running(file: seq<Byte>, c: Codec, update: (nat, seq<Byte>) -> nat, e: Entry, s: Session,
                          start: nat, dst: seq<Byte>) {
    && Faithful(file, c, update, e, s)
    && start <= s.outPos <= |Plain(file, c, e)| && dst == Plain(file, c, e)[start..s.outPos]
  }

  lemma RunStart(file: seq<Byte>, c: Codec, update: (nat, seq<Byte>) -> nat, e: Entry, s: Session)
    requires Lawful(c) && Faithful(file, c, update, e, s)
    ensures Running(file, c, update, e, s, s.outPos, [])
  {
    FaithfulPrefix(file, c, update, e, s);
  }

  lemma RunFaithful(file: seq<Byte>, c: Codec, update: (nat, seq<Byte>) -> nat, e: Entry, s: Session, start: nat, dst: seq<Byte>)
    requires Running(file, c, update, e, s, start, dst)
    ensures Faithful(file, c, update, e, s) && Start(file, e).Some? && s.outPos <= |c.decode(s.fed)|
    ensures s.outPos == start + |dst|
    ensures start <= s.outPos <= |Plain(file, c, e)| && dst == Plain(file, c, e)[start..s.outPos]
  {
  }

  lemma RunFill(file: seq<Byte>, c: Codec, update: (nat, seq<Byte>) -> nat, e: Entry, s: Session, start: nat, dst: seq<Byte>, n: nat)
    requires Running(file, c, update, e, s, start, dst)
    requires s.pending == [] && s.compLeft > 0 && n == Min(INPUT_SIZE, s.compLeft) && s.filePos + n <= |file|
    ensures Running(file, c, update, e, Filled(s, file[s.filePos..s.filePos + n]), start, dst)
  {
    FillFaithful(file, c, update, e, s, n);
  }

  lemma RunStep(file: seq<Byte>, c: Codec, update: (nat, seq<Byte>) -> nat, e: Entry, s: Session, start: nat,
                dst: seq<Byte>, used: nat, out: seq<Byte>)
    requires Lawful(c) && Continues(update) && Running(file, c, update, e, s, start, dst) && !s.ended && used <= |s.pending|
    requires s.outPos + |out| <= |c.decode(s.fed + s.pending[..used])|
    requires out == c.decode(s.fed + s.pending[..used])[s.outPos..s.outPos + |out|]
    ensures Running(file, c, update, e, Feed(s, used, |out|, update(s.crc, out)), start, dst + out)
  {
    var n := Feed(s, used, |out|, update(s.crc, out));
    FeedFaithful(file, c, update, e, s, used, out);
    FaithfulPrefix(file, c, update, e, n);
    Delivered(file, c, update, e, s, n, used, out, dst, start);
  }

  lemma RunEnd(file: seq<Byte>, c: Codec, update: (nat, seq<Byte>) -> nat, e: Entry, s: Session, start: nat, dst: seq<Byte>)
    requires Running(file, c, update, e, s, start, dst) && c.ended(s.fed) && s.outPos == |c.decode(s.fed)|
    ensures Running(file, c, update, e, s.(ended := true), start, dst)
  {
  }

  lemma StampFaithful(file: seq<Byte>, c: Codec, update: (nat, seq<Byte>) -> nat, e: Entry, s: Session, stamp: nat)
    requires Faithful(file, c, update, e, s)
    ensures Faithful(file, c, update, e, s.(stamp := stamp))
  {
  }

  lemma NewFaithful(file: seq<Byte>, c: Codec, update: (nat, seq<Byte>) -> nat, e: Entry, s: Session)
    requires Continues(update) && Start(file, e).Some?
    requires s == Session(true, e.extra, Start(file, e).value, e.packedSize, [], [], 0, 0, false, 0)
    ensures Faithful(file, c, update, e, s)
  {
    assert c.decode([])[..0] == [];
  }

  /** The bytes just produced continue the slice already delivered. */
  lemma Delivered(file: seq<Byte>, c: Codec, update: (nat, seq<Byte>) -> nat, e: Entry, before: Session, s: Session,
                  used: nat, out: seq<Byte>, dst: seq<Byte>, start: nat)
    requires used <= |before.pending| && s == Feed(before, used, |out|, s.crc)
    requires Faithful(file, c, update, e, s) && c.decode(s.fed) <= Plain(file, c, e)
    requires before.outPos + |out| <= |c.decode(s.fed)| && out == c.decode(s.fed)[before.outPos..before.outPos + |out|]
    requires start <= before.outPos <= |Plain(file, c, e)| && dst == Plain(file, c, e)[start..before.outPos]
    ensures s.outPos <= |Plain(file, c, e)| && dst + out == Plain(file, c, e)[start..s.outPos]
  {
    assert out == Plain(file, c, e)[before.outPos..s.outPos];
  }
}
